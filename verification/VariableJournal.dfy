/** The writes to the stores' memories in order, and what a power failure between two of them leaves. */
module VariableJournal {
  import opened Words
  import opened VariableLog
  import opened VariableUpdate
  import opened VariableRun
  import opened VariableRecovery
  import opened VariableServices
  import opened VariableBytes

  /** What one write left in the memory of a store. */
  datatype Write = Write(t: StoreType, bytes: seq<u8>)

  /** The memory of a store of the given size when it has been erased. */
  predicate Wiped(b: seq<u8>, size: nat) {
    |b| == size + 2 && forall i :: 0 <= i < size ==> b[i] == VAR_DEFAULT_VALUE
  }

  /** The write takes the stores from one state to the next. The erased state of a reclaim has no records and no header
      either. */
  predicate Shows(w: Write, sizes: Sizes, before: Stores, after: Stores, erased: bool) {
    && after == before.Set(w.t, after.Get(w.t))
    && if erased then Wiped(w.bytes, sizes.Get(w.t)) else Image(w.bytes, sizes.Get(w.t), after.Get(w.t))
  }

  /** These writes take the stores through the states of a run. A reclaim erases store r and writes it back. */
  predicate Recorded(writes: seq<Write>, sizes: Sizes, states: seq<Stores>, erased: int, r: StoreType) {
    && |writes| + 1 == |states|
    && (forall n :: 0 <= n < |writes| ==> Shows(writes[n], sizes, states[n], states[n + 1], n + 1 == erased))
    && (0 < erased <= |writes| ==> writes[erased - 1].t == r)
    && (0 < erased < |writes| ==> writes[erased].t == r)
  }

  /** The memory of store t, b at first, after the writes. */
  function MemoryOf(b: seq<u8>, writes: seq<Write>, t: StoreType): seq<u8> {
    if writes == [] then b
    else
      var last := |writes| - 1;
      if writes[last].t == t then writes[last].bytes else MemoryOf(b, writes[..last], t)
  }

  /** After the first n writes of a run the memory of either store is an image of its log in state n, unless the store
      has just been erased. */
  lemma {:induction false} MemoryShows(b: seq<u8>, writes: seq<Write>, sizes: Sizes, states: seq<Stores>, erased: int,
                                       r: StoreType, t: StoreType, n: nat)
    requires Recorded(writes, sizes, states, erased, r) && n <= |writes| && Image(b, sizes.Get(t), states[0].Get(t))
    ensures n != erased || n == 0 || t != r ==> Image(MemoryOf(b, writes[..n], t), sizes.Get(t), states[n].Get(t))
    decreases n
  {
    hide Image;
    if n > 0 {
      assert Shows(writes[n - 1], sizes, states[n - 1], states[n], n == erased);
      assert writes[..n][..n - 1] == writes[..n - 1];
      MemoryShows(b, writes, sizes, states, erased, r, t, n - 1);
    }
  }

  /** One more write, of the next state. */
  lemma RecordedMore(writes: seq<Write>, sizes: Sizes, states: seq<Stores>, erased: int, r: StoreType, w: Write,
                     s: Stores)
    requires Recorded(writes, sizes, states, erased, r) && Shows(w, sizes, Last(states), s, |states| == erased)
    requires 0 < erased && (|states| == erased || |writes| == erased) ==> w.t == r
    ensures Recorded(writes + [w], sizes, states + [s], erased, r)
  {
    hide Shows;
    var writes', states' := writes + [w], states + [s];
    forall n | 0 <= n < |writes'| ensures Shows(writes'[n], sizes, states'[n], states'[n + 1], n + 1 == erased) {
      if n < |writes| { assert Shows(writes[n], sizes, states[n], states[n + 1], n + 1 == erased); }
    }
  }

  /** Writes that erased nothing so far are also those before a store is erased. */
  lemma RecordedLater(writes: seq<Write>, sizes: Sizes, states: seq<Stores>, erased: int, r: StoreType)
    requires Recorded(writes, sizes, states, -1, r) && erased >= |states|
    ensures Recorded(writes, sizes, states, erased, r)
  {
    hide Shows;
    forall n | 0 <= n < |writes| ensures Shows(writes[n], sizes, states[n], states[n + 1], n + 1 == erased) {
      assert Shows(writes[n], sizes, states[n], states[n + 1], n + 1 == -1);
    }
  }

  /** An erased store reads as one without records, but it is no image of any log: its header is gone too, and its size
      field claims the largest size there is. */
  lemma WipedReads(b: seq<u8>, size: u32, log: seq<Record>)
    requires Wiped(b, size) && size >= STORE_HEADER + 2
    ensures !IsValidVariableHeader(b, STORE_HEADER) && Field32(b, 16) == 0xFFFF_FFFF
    ensures size < 0xFFFF_FFFF ==> !Image(b, size, log)
  {
    assert b[16] == 0xff && b[17] == 0xff && b[18] == 0xff && b[19] == 0xff;
  }

  /** Crash consistency down to the bytes: cut off after n of the writes that lead through its states, the last of which
      did not erase the non-volatile store, a call leaves a non-volatile memory whose log, as a restart scans it, gives
      every variable the value of a restart before the call or after it, and every other variable the value from
      before, if and only if a reclaim has not torn what the runtime reads of it. */
  lemma CrashBytes(s: Stores, sizes: Sizes, q: Request, rt: bool, k: Key, rt': bool,
                   b: seq<u8>, writes: seq<Write>, n: nat, log: seq<Record>)
    requires Inv(s, false) && q.key.name != [] && k.name != [] && n <= |writes|
    requires var run := SetRun(s, sizes, q, rt);
      && (n == Erased(run) ==> StoreOf(q).VolatileStore?)
      && Recorded(writes, sizes, run.states, Erased(run), StoreOf(q))
    requires Image(b, sizes.nv, s.nv) && Image(MemoryOf(b, writes[..n], NvStore), sizes.nv, log)
    ensures Survives(s, SetRun(s, sizes, q, rt), q, k, rt', Meaning(Stores(log, []), k, rt')) <==>
      !Torn(s, sizes, q, rt, k, rt', n)
  {
    hide Inv, SetRun, Meaning, Image, MemoryOf, Torn;
    var run := SetRun(s, sizes, q, rt);
    MemoryShows(b, writes, sizes, run.states, Erased(run), StoreOf(q), NvStore, n);
    ImageUnique(MemoryOf(b, writes[..n], NvStore), sizes.nv, log, run.states[n].nv);
    CrashConsistent(s, sizes, q, rt, k, rt', n);
  }

  /** The erased state of a run, if any. */
  function Erased(run: Run): int { if run.Run? then run.erased else -1 }
}
