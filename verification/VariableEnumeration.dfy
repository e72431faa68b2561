/** GetNextVariableName: which variables a caller sees who starts from the empty name and follows each answer. */
module VariableEnumeration {
  import opened VariableLog

  const ANY: Key := Key([], [])

  /** The first visible record from i on, or |log|. */
  function NextVisible(log: seq<Record>, rt: bool, i: nat): (n: nat)
    requires i <= |log|
    ensures i <= n <= |log| && (n < |log| ==> Visible(log[n], rt)) && forall j :: i <= j < n ==> !Visible(log[j], rt)
    decreases |log| - i
  {
    if i == |log| || Visible(log[i], rt) then i else NextVisible(log, rt, i + 1)
  }

  /** The record named after k, or |log| for EFI_NOT_FOUND. The empty name names whatever FindVariable finds first. */
  function NextAfter(log: seq<Record>, k: Key, rt: bool): (n: nat)
    ensures n <= |log| && (n < |log| ==> Visible(log[n], rt))
  {
    var f := Find(log, k, rt);
    if f < 0 then |log| else NextVisible(log, rt, if k.name == [] then f else f + 1)
  }

  /** No key has two live records. */
  predicate GhostFree(log: seq<Record>) {
    forall i, j :: 0 <= i < j < |log| && Live(log[i]) && Live(log[j]) ==> log[i].key != log[j].key
  }

  predicate Named(log: seq<Record>) {
    forall i :: 0 <= i < |log| ==> log[i].key.name != []
  }

  /** From a visible record's own name the walk goes on behind the newest visible record of that variable. */
  lemma NextOfNewest(log: seq<Record>, rt: bool, i: nat, u: bool)
    requires Sound(log, u) && Named(log) && i < |log| && Visible(log[i], rt)
    ensures var f := Newest(log, log[i].key, rt, |log|);
      f >= i && Hit(log[f], log[i].key, rt) && log[f].key == log[i].key
      && NextAfter(log, log[i].key, rt) == NextVisible(log, rt, f + 1)
  {
    hide Sound, Visible, Newest, NextVisible;
    FindIsNewest(log, log[i].key, rt, u);
    assert Hit(log[i], log[i].key, rt) && log[i].key.name != [];
  }

  /** It goes on right behind the record itself exactly when no newer record of the variable is visible; behind a ghost
      all that stands between the two is passed over. */
  lemma GhostHides(log: seq<Record>, rt: bool, i: nat, u: bool)
    requires Sound(log, u) && Named(log) && i < |log| && Visible(log[i], rt)
    ensures NextAfter(log, log[i].key, rt) == NextVisible(log, rt, i + 1) <==>
      forall j :: i < j < |log| && Visible(log[j], rt) ==> log[j].key != log[i].key
  {
    hide Sound, NextAfter, Newest, NextVisible, Visible;
    NextOfNewest(log, rt, i, u);
    forall j | i < j < |log| && Visible(log[j], rt) && log[j].key == log[i].key ensures Hit(log[j], log[i].key, rt) {}
  }

  lemma NextIsNext(log: seq<Record>, rt: bool, i: nat)
    requires GhostFree(log) && Named(log) && i < |log| && Visible(log[i], rt)
    ensures NextAfter(log, log[i].key, rt) == NextVisible(log, rt, i + 1)
  {
    NextOfNewest(log, rt, i, false);
  }

  /** The records named one after the other, following record i. */
  function Visit(log: seq<Record>, rt: bool, i: nat): (r: seq<nat>)
    requires Sound(log, false) && Named(log) && i <= |log| && (i < |log| ==> Visible(log[i], rt))
    ensures forall j :: 0 <= j < |r| ==> i <= r[j] < |log|
    decreases |log| - i
  {
    if i == |log| then []
    else
      NextOfNewest(log, rt, i, false);
      [i] + Visit(log, rt, NextAfter(log, log[i].key, rt))
  }

  /** All that a caller sees who starts from the empty name. */
  function Enumeration(log: seq<Record>, rt: bool): (r: seq<nat>)
    requires Sound(log, false) && Named(log)
    ensures forall j :: 0 <= j < |r| ==> r[j] < |log|
  {
    Visit(log, rt, NextAfter(log, ANY, rt))
  }

  /** Record m stands between record v and the newest visible record of v's variable: the walk passes over it. */
  predicate PassesOver(log: seq<Record>, rt: bool, v: nat, m: nat)
    requires v < |log|
  {
    v < m < Newest(log, log[v].key, rt, |log|)
  }

  /** The walk from i on names variable k, whose newest visible record is not before i, unless it passes over that. */
  lemma {:induction false} VisitNames(log: seq<Record>, rt: bool, i: nat, k: Key)
    requires Sound(log, false) && Named(log) && i < |log| && Visible(log[i], rt) && k.name != []
    requires i <= Newest(log, k, rt, |log|)
    ensures forall v :: v in Visit(log, rt, i) ==> i <= v < |log|
    ensures (exists v :: v in Visit(log, rt, i) && log[v].key == k) <==>
      forall v :: v in Visit(log, rt, i) ==> !PassesOver(log, rt, v, Newest(log, k, rt, |log|))
    decreases |log| - i
  {
    hide Sound, Newest, NextAfter, Visible, Visit, Named;
    VisitOpens(log, rt, i);
    var m, f, next := Newest(log, k, rt, |log|), Newest(log, log[i].key, rt, |log|), NextAfter(log, log[i].key, rt);
    assert log[m].key == k && Visible(log[m], rt);
    forall v | v in Visit(log, rt, next) && log[v].key == k ensures v <= m { VisitVisible(log, rt, next, v); }
    if f < m {
      VisitNames(log, rt, next, k);
    } else if f == m {
      assert i in Visit(log, rt, i) && log[i].key == k;
    } else if i < m {
      assert i in Visit(log, rt, i) && PassesOver(log, rt, i, m);
    }
  }

  lemma VisitOpens(log: seq<Record>, rt: bool, i: nat)
    requires Sound(log, false) && Named(log) && i < |log| && Visible(log[i], rt)
    ensures var next := NextAfter(log, log[i].key, rt);
      && (forall v :: v in Visit(log, rt, i) <==> v == i || v in Visit(log, rt, next))
      && (forall v :: v in Visit(log, rt, next) ==> next <= v < |log|)
      && (forall m :: Newest(log, log[i].key, rt, |log|) < m < |log| && Visible(log[m], rt) ==> next <= m)
    ensures var f := Newest(log, log[i].key, rt, |log|);
      i <= f < NextAfter(log, log[i].key, rt) && log[f].key == log[i].key
  {
    hide Sound, Newest, NextAfter, Visible, Named;
    NextOfNewest(log, rt, i, false);
    var next := NextAfter(log, log[i].key, rt);
    assert Visit(log, rt, i) == [i] + Visit(log, rt, next);
  }

  lemma {:induction false} VisitVisible(log: seq<Record>, rt: bool, i: nat, v: nat)
    requires Sound(log, false) && Named(log) && i <= |log| && (i < |log| ==> Visible(log[i], rt))
    requires v in Visit(log, rt, i)
    ensures v < |log| && Visible(log[v], rt) && v <= Newest(log, log[v].key, rt, |log|)
    decreases |log| - i
  {
    NextOfNewest(log, rt, i, false);
    if v != i { VisitVisible(log, rt, NextAfter(log, log[i].key, rt), v); }
  }

  /** The visible records from i on, in order. */
  function VisibleFrom(log: seq<Record>, rt: bool, i: nat): seq<nat>
    requires i <= |log|
    decreases |log| - i
  {
    if i == |log| then [] else if Visible(log[i], rt) then
      [i] + VisibleFrom(log, rt, i + 1) else VisibleFrom(log, rt, i + 1)
  }

  /** VisibleFrom lists exactly the visible records, each once: it is increasing. */
  lemma {:induction false} VisibleFromExact(log: seq<Record>, rt: bool, i: nat)
    requires i <= |log|
    ensures forall n :: n in VisibleFrom(log, rt, i) <==> i <= n < |log| && Visible(log[n], rt)
    ensures forall a, b :: 0 <= a < b < |VisibleFrom(log, rt, i)| ==>
      VisibleFrom(log, rt, i)[a] < VisibleFrom(log, rt, i)[b]
    decreases |log| - i
  {
    if i < |log| {
      VisibleFromExact(log, rt, i + 1);
      var rest := VisibleFrom(log, rt, i + 1);
      forall b | 0 <= b < |rest| ensures i < rest[b] { assert rest[b] in rest; }
    }
  }

  lemma {:induction false} VisibleSkip(log: seq<Record>, rt: bool, i: nat)
    requires i <= |log|
    ensures VisibleFrom(log, rt, i) == VisibleFrom(log, rt, NextVisible(log, rt, i))
    decreases |log| - i
  {
    if i < |log| && !Visible(log[i], rt) {
      VisibleSkip(log, rt, i + 1);
    }
  }

  /** Following the answers visits the visible records in order. */
  lemma {:induction false} VisitInOrder(log: seq<Record>, rt: bool, i: nat)
    requires GhostFree(log) && Named(log) && i <= |log| && (i < |log| ==> Visible(log[i], rt))
    ensures Visit(log, rt, i) == VisibleFrom(log, rt, i)
    decreases |log| - i
  {
    if i < |log| {
      NextIsNext(log, rt, i);
      VisibleSkip(log, rt, i + 1);
      VisitInOrder(log, rt, NextVisible(log, rt, i + 1));
    }
  }

  /** The walk starts at the first added record; without one, at the last record in transition. */
  lemma StartsAt(log: seq<Record>, rt: bool)
    ensures NextAfter(log, ANY, rt) == if Find(log, ANY, rt) < 0 then |log| else Find(log, ANY, rt)
  {
  }

  /** What a search from record i on answers: the first added hit, or else the last hit in transition, or else best. */
  lemma {:induction false} ScanAnswer(log: seq<Record>, k: Key, rt: bool, i: nat, best: int)
    requires i <= |log| && -1 <= best < |log| && (best >= 0 ==> Hit(log[best], k, rt))
    ensures var f := Scan(log, k, rt, i, best);
      if exists j :: i <= j < |log| && Hit(log[j], k, rt) && Added(log[j]) then
        f >= i && Added(log[f]) && forall j :: i <= j < f ==> !(Hit(log[j], k, rt) && Added(log[j]))
      else if exists j :: i <= j < |log| && Hit(log[j], k, rt) then
        f >= i && forall j :: f < j < |log| ==> !Hit(log[j], k, rt)
      else f == best
    decreases |log| - i
  {
    if i < |log| {
      ScanAnswer(log, k, rt, i + 1, if Hit(log[i], k, rt) then i else best);
    }
  }

  lemma Missed(log: seq<Record>, rt: bool, i: nat, f: nat)
    requires i < f <= |log| && Visible(log[i], rt)
    ensures VisibleFrom(log, rt, f) != VisibleFrom(log, rt, 0)
  {
    VisibleFromExact(log, rt, 0);
    VisibleFromExact(log, rt, f);
    assert i in VisibleFrom(log, rt, 0) && i !in VisibleFrom(log, rt, f);
  }

  predicate IsFirst(log: seq<Record>, rt: bool, i: nat)
    requires i < |log|
  {
    Visible(log[i], rt) && forall h :: 0 <= h < i ==> !Visible(log[h], rt)
  }

  /** The first visible record is added, or is the only visible one. */
  predicate StartsAdded(log: seq<Record>, rt: bool) {
    forall i, j :: 0 <= i < j < |log| && IsFirst(log, rt, i) && Visible(log[j], rt) ==> Added(log[i])
  }

  lemma StartIsFirst(log: seq<Record>, rt: bool)
    ensures (forall i :: 0 <= i < Find(log, ANY, rt) ==> !Visible(log[i], rt)) <==> StartsAdded(log, rt)
  {
    var f := Find(log, ANY, rt);
    ScanAnswer(log, ANY, rt, 0, -1);
    forall i | 0 <= i < |log| ensures Hit(log[i], ANY, rt) == Visible(log[i], rt) {}
    if f >= 0 && StartsAdded(log, rt) {
      assert NextVisible(log, rt, 0) >= f;
    }
  }

  /** Every visible variable is named exactly once, in the order of the log, if and only if the first visible record is
      added or is the only one. */
  lemma EnumerationComplete(log: seq<Record>, rt: bool)
    requires GhostFree(log) && Named(log)
    ensures Enumeration(log, rt) == VisibleFrom(log, rt, NextAfter(log, ANY, rt))
    ensures Enumeration(log, rt) == VisibleFrom(log, rt, 0) <==> StartsAdded(log, rt)
  {
    hide VisibleFrom, Visit, Visible, StartsAdded;
    var f := Find(log, ANY, rt);
    StartsAt(log, rt);
    StartIsFirst(log, rt);
    VisitInOrder(log, rt, NextAfter(log, ANY, rt));
    VisibleSkip(log, rt, 0);
    if f < 0 {
      NoneVisible(log, rt);
    } else if i :| 0 <= i < f && Visible(log[i], rt) {
      Missed(log, rt, i, f);
    }
  }

  lemma NoneVisible(log: seq<Record>, rt: bool)
    requires Find(log, ANY, rt) < 0
    ensures NextVisible(log, rt, 0) == |log|
  {
    ScanAnswer(log, ANY, rt, 0, -1);
    var n := NextVisible(log, rt, 0);
    assert n < |log| ==> Hit(log[n], ANY, rt);
  }

  /** In every sound log, with ghosts or without, the enumeration names a visible variable if and only if its newest
      visible record is not in front of the first one named and the walk never passes over it. */
  lemma EnumerationNames(log: seq<Record>, rt: bool, k: Key)
    requires Sound(log, false) && Named(log) && k.name != [] && Newest(log, k, rt, |log|) >= 0
    ensures forall v :: v in Enumeration(log, rt) ==> v < |log|
    ensures var m := Newest(log, k, rt, |log|);
      (exists v :: v in Enumeration(log, rt) && log[v].key == k) <==>
        NextAfter(log, ANY, rt) <= m && forall v :: v in Enumeration(log, rt) ==> !PassesOver(log, rt, v, m)
  {
    hide Sound, Newest, Visible, Visit;
    var start, m := NextAfter(log, ANY, rt), Newest(log, k, rt, |log|);
    if start <= m {
      VisitNames(log, rt, start, k);
    } else {
      forall v | v in Visit(log, rt, start) ensures log[v].key != k { VisitVisible(log, rt, start, v); }
    }
  }

  /** And it names none of them twice. */
  lemma {:induction false} NamedOnce(log: seq<Record>, rt: bool, i: nat)
    requires Sound(log, false) && Named(log) && i <= |log| && (i < |log| ==> Visible(log[i], rt))
    ensures forall a, b :: 0 <= a < b < |Visit(log, rt, i)| ==>
      log[Visit(log, rt, i)[a]].key != log[Visit(log, rt, i)[b]].key
    decreases |log| - i
  {
    hide Sound, Newest, Visible, NextAfter;
    if i < |log| {
      NextOfNewest(log, rt, i, false);
      var next := NextAfter(log, log[i].key, rt);
      NamedOnce(log, rt, next);
      var rest := Visit(log, rt, next);
      forall b | 0 <= b < |rest| ensures log[rest[b]].key != log[i].key {
        assert rest[b] in rest;
        VisitVisible(log, rt, next, rest[b]);
      }
    }
  }

  // ---- On the log alone -------------------------------------------------------------------------

  /** Record m is the newest visible one of its variable. */
  predicate IsNewest(log: seq<Record>, rt: bool, m: nat) {
    m < |log| && Visible(log[m], rt) && forall j :: m < j < |log| && Visible(log[j], rt) ==> log[j].key != log[m].key
  }

  /** Record i is the first added visible one or, if there is none, the last visible one in transition: the walk begins
      there. */
  predicate Begins(log: seq<Record>, rt: bool, i: nat) {
    && i < |log| && Visible(log[i], rt)
    && if Added(log[i]) then forall j :: 0 <= j < i && Visible(log[j], rt) ==> !Added(log[j])
       else forall j :: 0 <= j < |log| && Visible(log[j], rt) ==> !Added(log[j]) && j <= i
  }

  /** The walk may come to record i: it begins there, or i is the first visible record behind a newest one. */
  predicate Entered(log: seq<Record>, rt: bool, i: nat) {
    Begins(log, rt, i) ||
    (i < |log| && Visible(log[i], rt) &&
     exists m :: 0 <= m < i && IsNewest(log, rt, m) && forall j :: m < j < i ==> !Visible(log[j], rt))
  }

  /** No variable's newest record stands in front of where the walk begins, or between a record where the walk may come
      and a later record of the same variable. */
  predicate NothingHidden(log: seq<Record>, rt: bool) {
    && (forall i, m :: 0 <= m < i < |log| && Begins(log, rt, i) ==> !IsNewest(log, rt, m))
    && (forall i, m, j | 0 <= i < m < j < |log| && Entered(log, rt, i) && IsNewest(log, rt, m) ::
          Visible(log[j], rt) ==> log[j].key != log[i].key)
  }

  /** Every visible variable is named. */
  predicate NamesAll(log: seq<Record>, rt: bool)
    requires Sound(log, false) && Named(log)
  {
    forall m :: 0 <= m < |log| && Visible(log[m], rt) ==>
      exists a :: 0 <= a < |Enumeration(log, rt)| && log[Enumeration(log, rt)[a]].key == log[m].key
  }

  lemma BeginsIs(log: seq<Record>, rt: bool, i: nat)
    ensures Begins(log, rt, i) <==> i < |log| && i == NextAfter(log, ANY, rt)
  {
    ScanAnswer(log, ANY, rt, 0, -1);
    forall j | 0 <= j < |log| ensures Hit(log[j], ANY, rt) == Visible(log[j], rt) {}
  }

  lemma NewestIs(log: seq<Record>, rt: bool, m: nat)
    requires Named(log) && m < |log| && Visible(log[m], rt)
    ensures IsNewest(log, rt, m) <==> m == Newest(log, log[m].key, rt, |log|)
  {
    assert log[m].key.name != [];
    forall j | 0 <= j < |log| && Visible(log[j], rt)
      ensures Hit(log[j], log[m].key, rt) <==> log[j].key == log[m].key
    {
    }
  }

  /** The newest visible record of a variable. */
  lemma NewestOf(log: seq<Record>, rt: bool, i: nat) returns (m: nat)
    requires Named(log) && i < |log| && Visible(log[i], rt)
    ensures m == Newest(log, log[i].key, rt, |log|) && i <= m && IsNewest(log, rt, m) && log[m].key == log[i].key
  {
    assert log[i].key.name != [] && Hit(log[i], log[i].key, rt);
    m := Newest(log, log[i].key, rt, |log|);
    NewestIs(log, rt, m);
  }

  /** Where the walk goes from a record it comes to, it may come. */
  lemma NextEntered(log: seq<Record>, rt: bool, i: nat)
    requires Sound(log, false) && Named(log) && i < |log| && Visible(log[i], rt)
    ensures var next := NextAfter(log, log[i].key, rt);
      next < |log| ==> Entered(log, rt, next)
  {
    hide Sound, NextAfter, Newest;
    NextOfNewest(log, rt, i, false);
    var m := NewestOf(log, rt, i);
    assert forall j :: m < j < NextAfter(log, log[i].key, rt) ==> !Visible(log[j], rt);
  }

  lemma {:induction false} VisitEntered(log: seq<Record>, rt: bool, i: nat, a: nat)
    requires Sound(log, false) && Named(log) && i <= |log| && (i < |log| ==> Entered(log, rt, i) && Visible(log[i], rt))
    requires a < |Visit(log, rt, i)|
    ensures Entered(log, rt, Visit(log, rt, i)[a])
    decreases |log| - i
  {
    hide Sound, NextAfter, Newest, Entered, Visible;
    NextOfNewest(log, rt, i, false);
    if a > 0 {
      NextEntered(log, rt, i);
      VisitEntered(log, rt, NextAfter(log, log[i].key, rt), a - 1);
    }
  }

  /** Behind a record that is named the walk goes on: the first visible record behind the newest one of that variable is
      named too. */
  lemma {:induction false} VisitGoesOn(log: seq<Record>, rt: bool, i: nat, a: nat) returns (b: nat)
    requires Sound(log, false) && Named(log) && i <= |log| && (i < |log| ==> Visible(log[i], rt))
    requires a < |Visit(log, rt, i)| && NextAfter(log, log[Visit(log, rt, i)[a]].key, rt) < |log|
    ensures b < |Visit(log, rt, i)| && Visit(log, rt, i)[b] == NextAfter(log, log[Visit(log, rt, i)[a]].key, rt)
    decreases |log| - i
  {
    hide Sound, NextAfter, Newest, Visible;
    NextOfNewest(log, rt, i, false);
    if a == 0 {
      b := 1;
    } else {
      b := VisitGoesOn(log, rt, NextAfter(log, log[i].key, rt), a - 1);
      b := b + 1;
    }
  }

  lemma NamedBy(log: seq<Record>, rt: bool, m: nat) returns (a: nat)
    requires Sound(log, false) && Named(log) && NamesAll(log, rt) && m < |log| && Visible(log[m], rt)
    ensures a < |Enumeration(log, rt)| && log[Enumeration(log, rt)[a]].key == log[m].key
    ensures Visible(log[Enumeration(log, rt)[a]], rt)
  {
    a :| 0 <= a < |Enumeration(log, rt)| && log[Enumeration(log, rt)[a]].key == log[m].key;
    VisitVisible(log, rt, NextAfter(log, ANY, rt), Enumeration(log, rt)[a]);
  }

  /** If all is named, the walk does come to every record where it may. */
  lemma EnteredNamed(log: seq<Record>, rt: bool, i: nat) returns (a: nat)
    requires Sound(log, false) && Named(log) && NamesAll(log, rt) && Entered(log, rt, i)
    ensures a < |Enumeration(log, rt)| && Enumeration(log, rt)[a] == i
  {
    hide Sound, NextAfter, Newest, Begins, NamesAll;
    BeginsIs(log, rt, i);
    if Begins(log, rt, i) {
      a := 0;
    } else {
      var m :| 0 <= m < i && IsNewest(log, rt, m) && forall j :: m < j < i ==> !Visible(log[j], rt);
      var b := NamedBy(log, rt, m);
      var v := Enumeration(log, rt)[b];
      NextOfNewest(log, rt, v, false);
      NewestIs(log, rt, m);
      assert i < |log| && Visible(log[i], rt);
      a := VisitGoesOn(log, rt, NextAfter(log, ANY, rt), b);
    }
  }

  lemma PassedNotNamed(log: seq<Record>, rt: bool, v: nat, m: nat, j: nat)
    requires Sound(log, false) && Named(log) && v in Enumeration(log, rt) && v < m < j < |log|
    requires IsNewest(log, rt, m) && Visible(log[v], rt) && Visible(log[j], rt) && log[j].key == log[v].key
    ensures !NamesAll(log, rt)
  {
    hide Sound, NextAfter, Visit;
    NewestIs(log, rt, m);
    var f := NewestOf(log, rt, v);
    assert log[m].key.name != [];
    EnumerationNames(log, rt, log[m].key);
    assert PassesOver(log, rt, v, m);
  }

  lemma FrontNotNamed(log: seq<Record>, rt: bool, i: nat, m: nat)
    requires Sound(log, false) && Named(log) && Begins(log, rt, i) && IsNewest(log, rt, m) && m < i
    ensures !NamesAll(log, rt)
  {
    hide Sound, NextAfter, Visit;
    BeginsIs(log, rt, i);
    NewestIs(log, rt, m);
    assert log[m].key.name != [];
    EnumerationNames(log, rt, log[m].key);
  }

  lemma NothingHiddenNames(log: seq<Record>, rt: bool, n: nat) returns (a: nat)
    requires Sound(log, false) && Named(log) && NothingHidden(log, rt) && n < |log| && Visible(log[n], rt)
    ensures a < |Enumeration(log, rt)| && log[Enumeration(log, rt)[a]].key == log[n].key
  {
    hide Sound, NextAfter, Begins, Entered;
    var m := NewestOf(log, rt, n);
    var start := NextAfter(log, ANY, rt);
    BeginsSome(log, rt, n);
    BeginsIs(log, rt, start);
    assert log[n].key.name != [];
    EnumerationNames(log, rt, log[n].key);
    forall v | v in Enumeration(log, rt) ensures !PassesOver(log, rt, v, m) {
      var b :| 0 <= b < |Enumeration(log, rt)| && Enumeration(log, rt)[b] == v;
      StartEntered(log, rt);
      VisitEntered(log, rt, start, b);
      VisitVisible(log, rt, start, v);
      var f := NewestOf(log, rt, v);
    }
    var v :| v in Enumeration(log, rt) && log[v].key == log[n].key;
    a :| 0 <= a < |Enumeration(log, rt)| && Enumeration(log, rt)[a] == v;
  }

  lemma StartEntered(log: seq<Record>, rt: bool)
    ensures var start := NextAfter(log, ANY, rt);
      start < |log| ==> Begins(log, rt, start) && Entered(log, rt, start) && Visible(log[start], rt)
  {
    BeginsIs(log, rt, NextAfter(log, ANY, rt));
  }

  lemma BeginsSome(log: seq<Record>, rt: bool, n: nat)
    requires n < |log| && Visible(log[n], rt)
    ensures NextAfter(log, ANY, rt) < |log|
  {
    ScanAnswer(log, ANY, rt, 0, -1);
    assert Hit(log[n], ANY, rt);
  }

  /** In every sound log, with ghosts or without, the enumeration names all visible variables if and only if nothing is
      hidden, which is a condition on the records alone. */
  lemma EnumerationAll(log: seq<Record>, rt: bool)
    requires Sound(log, false) && Named(log)
    ensures NamesAll(log, rt) <==> NothingHidden(log, rt)
  {
    hide Sound, Begins, Entered, IsNewest, Enumeration, Visible;
    if NamesAll(log, rt) {
      forall i, m | 0 <= m < i < |log| && Begins(log, rt, i) ensures !IsNewest(log, rt, m) {
        if IsNewest(log, rt, m) { FrontNotNamed(log, rt, i, m); }
      }
      forall i, m, j | 0 <= i < m < j < |log| && Entered(log, rt, i) && IsNewest(log, rt, m) && Visible(log[j], rt)
        ensures log[j].key != log[i].key
      {
        if log[j].key == log[i].key {
          var a := EnteredNamed(log, rt, i);
          EnteredVisible(log, rt, i);
          assert i in Enumeration(log, rt);
          PassedNotNamed(log, rt, i, m, j);
        }
      }
    }
    if NothingHidden(log, rt) {
      forall n | 0 <= n < |log| && Visible(log[n], rt)
        ensures exists a :: 0 <= a < |Enumeration(log, rt)| && log[Enumeration(log, rt)[a]].key == log[n].key
      {
        var a := NothingHiddenNames(log, rt, n);
      }
    }
  }

  lemma EnteredVisible(log: seq<Record>, rt: bool, i: nat)
    requires Entered(log, rt, i)
    ensures i < |log| && Visible(log[i], rt)
  {
  }

  /** Where it fails: a record left in transition, as an interrupted or refused update leaves it, in front of an added
      one is never named. */
  lemma StartsLate(g: Record, x: Record)
    requires InTransition(g) && Added(x) && g.key != x.key && Named([g, x])
    ensures GhostFree([g, x]) && Enumeration([g, x], false) == [1] && VisibleFrom([g, x], false, 0) == [0, 1]
  {
    var log := [g, x];
    assert log[0] == g && log[1] == x;
    assert Scan(log, ANY, false, 1, 0) == 1;
    assert Scan(log, ANY, false, 0, -1) == 1;
    assert VisibleFrom(log, false, 2) == [] && VisibleFrom(log, false, 1) == [1];
    assert NextVisible(log, false, 1) == 1;
    EnumerationComplete(log, false);
  }
}
