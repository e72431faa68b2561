/** MakeTable: from code lengths to the direct table and the overflow tree. */
module MakeTable {
  import opened Words
  import opened CanonicalCode
  import opened HuffmanTrie
  import opened TrieSteps

  const BAD_TABLE: u16 := 0xFFFF

  // ---- Counts and starts ------------------------------------------------------------------------

  /** Count[1..16]: how many symbols have each length. Count[0] starts out undefined and is never used. */
  method CountLengths(lens: seq<nat>) returns (count: array<u16>)
    requires ValidLengths(lens) && |lens| < 0x1_0000
    ensures fresh(count) && count.Length == 17
    ensures forall l :: 1 <= l <= 16 ==> count[l] == Count(lens, l)
  {
    count := new u16[17];
    for l := 1 to 17
      invariant forall k :: 1 <= k < l ==> count[k] == 0
    {
      count[l] := 0;
    }
    for i := 0 to |lens|
      invariant forall l :: 1 <= l <= 16 ==> count[l] == CountUpTo(lens, l, i)
    {
      var k: int := count[lens[i]];
      count[lens[i]] := (k + 1) % 0x1_0000;
    }
  }

  /** Start[1..17]: where each length class begins, in 16-bit arithmetic that wraps. */
  method RunningStarts(lens: seq<nat>, count: array<u16>) returns (start: array<u16>)
    requires count.Length == 17 && forall l :: 1 <= l <= 16 ==> count[l] == Count(lens, l)
    ensures fresh(start) && start.Length == 18
    ensures forall l :: 1 <= l <= 17 ==> start[l] == Start(lens, l) % 0x1_0000
  {
    start := new u16[18];
    start[1] := 0;
    for l := 1 to 17
      invariant forall k :: 1 <= k <= l ==> start[k] == Start(lens, k) % 0x1_0000
    {
      start[l + 1] := (start[l] + Scale(count[l], 16 - l)) % 0x1_0000;
    }
  }

  /** The next free window of length class l once the symbols below c have their codes. */
  function NextPos(lens: seq<nat>, l: nat, c: nat): nat
    requires l <= CODE_BIT && c <= |lens|
  {
    Start(lens, l) + Scale(CountUpTo(lens, l, c), CODE_BIT - l)
  }

  /** Start[l] in the units MakeTable keeps it: table entries for short codes, windows for long ones. */
  predicate StartHolds(lens: seq<nat>, bits: nat, l: nat, c: nat, x: nat)
    requires bits <= CODE_BIT && l <= CODE_BIT && c <= |lens|
  {
    CountUpTo(lens, l, c) < Count(lens, l) ==>
      NextPos(lens, l, c) == if l <= bits then EntryBase(bits, x) else x
  }

  ghost predicate StartsHold(lens: seq<nat>, bits: nat, c: nat, start: seq<u16>)
    requires bits <= CODE_BIT && c <= |lens|
  {
    |start| == 18 && forall l :: 1 <= l <= CODE_BIT ==> StartHolds(lens, bits, l, c, start[l])
  }

  predicate WeightsHold(bits: nat, weight: seq<u16>) {
    |weight| == 17 && forall l :: 1 <= l <= CODE_BIT ==> weight[l] == WeightOf(bits, l)
  }

  function WeightOf(bits: nat, l: nat): nat
    requires l <= CODE_BIT
  {
    if l <= bits then Pow2(bits - l) else Pow2(CODE_BIT - l)
  }

  /** A class with symbols left begins below 2^16, so no start has wrapped when it is used. */
  lemma RoomLeft(lens: seq<nat>, l: nat, c: nat)
    requires Complete(lens) && 1 <= l <= CODE_BIT && c <= |lens| && CountUpTo(lens, l, c) < Count(lens, l)
    ensures NextPos(lens, l, c) + Pow2(CODE_BIT - l) <= CODE_SPACE
  {
    ScaleStrict(CountUpTo(lens, l, c), Count(lens, l), CODE_BIT - l);
    StartMono(lens, l + 1, CODE_BIT + 1);
    StartIsKraft(lens, |lens|);
  }

  /** The first short class positions are whole table entries. */
  lemma StartEntry(lens: seq<nat>, bits: nat, l: nat)
    requires 1 <= l <= bits < CODE_BIT
    ensures EntryBase(bits, Shr(Start(lens, l), CODE_BIT - bits)) == Start(lens, l)
    ensures EntryBase(bits, Shr(LongStart(lens, bits), CODE_BIT - bits)) == LongStart(lens, bits)
  {
    var j := CODE_BIT - bits;
    StartIsFirstCode(lens, l);
    ScaleScale(FirstCode(lens, l), bits - l, j);
    Unsplit(Scale(FirstCode(lens, l), bits - l), 0, j);
    StartIsFirstCode(lens, bits);
    ScaleAdd(FirstCode(lens, bits), Count(lens, bits), j);
    Unsplit(FirstCode(lens, bits) + Count(lens, bits), 0, j);
  }

  /** No symbol has a code. */
  predicate Unused(lens: seq<nat>) {
    forall c :: 0 <= c < |lens| ==> lens[c] == 0
  }

  lemma {:induction false} CountUnused(lens: seq<nat>, l: nat, c: nat)
    requires Unused(lens) && 1 <= l && c <= |lens|
    ensures CountUpTo(lens, l, c) == 0
  {
    if c > 0 { CountUnused(lens, l, c - 1); }
  }

  lemma StartUnit(lens: seq<nat>, bits: nat, l: nat, x: nat)
    requires (Complete(lens) || Unused(lens)) && 1 <= l <= CODE_BIT && bits < CODE_BIT && x == Start(lens, l) % 0x1_0000
    ensures StartHolds(lens, bits, l, 0, if l <= bits then Shr(x, CODE_BIT - bits) else x)
  {
    ScaleOne(CODE_BIT - l);
    if Unused(lens) {
      CountUnused(lens, l, |lens|);
    } else if 0 < Count(lens, l) {
      RoomLeft(lens, l, 0);
      if l <= bits {
        StartEntry(lens, bits, l);
      }
    }
  }

  lemma WeightFits(bits: nat, l: nat)
    requires 1 <= l <= CODE_BIT && bits <= CODE_BIT
    ensures WeightOf(bits, l) < 0x1_0000
  {
    Pow2Literals();
    Pow2Mono(if l <= bits then bits - l else CODE_BIT - l, 15);
  }

  lemma {:induction false} ShrLess(x: nat, n: nat)
    ensures Shr(x, n) <= x
    decreases n
  {
    if n > 0 { ShrLess(x / 2, n - 1); }
  }

  /** Rescale the starts of the short classes and set the weights. */
  method Rescale(lens: seq<nat>, bits: nat, start: array<u16>) returns (weight: array<u16>)
    requires (Complete(lens) || Unused(lens)) && 1 <= bits < CODE_BIT && start.Length == 18
    requires forall l :: 1 <= l <= 17 ==> start[l] == Start(lens, l) % 0x1_0000
    modifies start
    ensures fresh(weight)
    ensures StartsHold(lens, bits, 0, start[..]) && WeightsHold(bits, weight[..])
    ensures start[bits + 1] == old(start[bits + 1])
  {
    weight := new u16[17];
    for l := 1 to bits + 1
      invariant forall k :: l <= k <= 17 ==> start[k] == Start(lens, k) % 0x1_0000
      invariant forall k :: 1 <= k < l ==> StartHolds(lens, bits, k, 0, start[k]) && weight[k] == WeightOf(bits, k)
    {
      StartUnit(lens, bits, l, start[l]);
      WeightFits(bits, l);
      ShrLess(start[l], CODE_BIT - bits);
      start[l] := Shr(start[l], CODE_BIT - bits);
      weight[l] := Pow2(bits - l);
    }
    for l := bits + 1 to 17
      invariant forall k :: bits < k <= 17 ==> start[k] == Start(lens, k) % 0x1_0000
      invariant forall k :: 1 <= k < l ==> StartHolds(lens, bits, k, 0, start[k]) && weight[k] == WeightOf(bits, k)
    {
      StartUnit(lens, bits, l, start[l]);
      WeightFits(bits, l);
      weight[l] := Pow2(16 - l);
    }
  }

  // ---- The direct table -------------------------------------------------------------------------

  lemma EntryOrder(bits: nat, i: nat, j: nat)
    requires bits <= CODE_BIT
    ensures EntryBase(bits, i) < EntryBase(bits, j) <==> i < j
  {
    if i < j {
      EntryMono(bits, i, j);
    } else {
      ScaleMono(j, i, CODE_BIT - bits);
    }
  }

  /** Some code of a small symbol set is short, so the long codes do not start at zero. */
  lemma {:induction false} KraftSmall(lens: seq<nat>, bits: nat, c: nat)
    requires ValidLengths(lens) && c <= |lens| && bits < CODE_BIT
    requires forall i :: 0 <= i < c ==> lens[i] == 0 || lens[i] > bits
    ensures Kraft(lens, c) <= Scale(c, CODE_BIT - (bits + 1))
  {
    if c == 0 {
      ScaleOne(CODE_BIT - (bits + 1));
    } else {
      KraftSmall(lens, bits, c - 1);
      ScaleNext(c - 1, CODE_BIT - (bits + 1));
      if lens[c - 1] != 0 {
        Pow2Mono(CODE_BIT - lens[c - 1], CODE_BIT - (bits + 1));
      }
    }
  }

  lemma LongStartPositive(lens: seq<nat>, bits: nat)
    requires Complete(lens) && 1 <= bits < CODE_BIT && |lens| < Pow2(bits + 1)
    ensures LongStart(lens, bits) > 0
  {
    if i :| 0 <= i < |lens| && 1 <= lens[i] <= bits {
      ShortBelow(lens, bits, i);
    } else {
      KraftSmall(lens, bits, |lens|);
      ScaleStrict(|lens|, Pow2(bits + 1), CODE_BIT - (bits + 1));
      ScalePow2(bits + 1, CODE_BIT - (bits + 1));
      Pow2Literals();
    }
  }

  lemma TableEnd(bits: nat)
    requires bits <= CODE_BIT
    ensures EntryBase(bits, Pow2(bits)) == CODE_SPACE
  {
    ScalePow2(bits, CODE_BIT - bits);
    Pow2Literals();
  }

  /** The wrapped start is zero exactly when there are no long codes. */
  lemma ShrZero(first: nat, j: nat, long: nat, bits: nat, lens: seq<nat>)
    requires 1 <= bits < CODE_BIT && j == CODE_BIT - bits && long == LongStart(lens, bits)
    requires 0 < long <= CODE_SPACE && first == long % 0x1_0000
    ensures if long == CODE_SPACE then
      Shr(first, j) == 0 else Shr(first, j) != 0 && EntryBase(bits, Shr(first, j)) == long
  {
    StartEntry(lens, bits, bits);
    ScaleOne(j);
    if long == CODE_SPACE {
      ShrLess(0, j);
    }
  }

  lemma {:induction false} StartUnused(lens: seq<nat>, l: nat)
    requires Unused(lens) && l <= CODE_BIT + 1
    ensures Start(lens, l) == 0
    decreases l
  {
    if l > 1 {
      StartUnused(lens, l - 1);
      CountUnused(lens, l - 1, |lens|);
      ScaleOne(CODE_BIT - (l - 1));
    }
  }

  /** Where the walk over the long entries starts. */
  lemma ClearFrom(lens: seq<nat>, bits: nat, first: nat)
    requires Complete(lens) && 1 <= bits < CODE_BIT && |lens| < Pow2(bits + 1)
    requires first == LongStart(lens, bits) % 0x1_0000
    ensures var from := Shr(first, CODE_BIT - bits);
      && (from != 0 ==> from <= Pow2(bits))
      && forall i: nat :: i < Pow2(bits) && EntryBase(bits, i) >= LongStart(lens, bits) ==> from != 0 && from <= i
  {
    LongStartPositive(lens, bits);
    StartMono(lens, bits + 1, CODE_BIT + 1);
    StartIsKraft(lens, |lens|);
    StartEntry(lens, bits, bits);
    TableEnd(bits);
    var from := Shr(first, CODE_BIT - bits);
    ShrZero(first, CODE_BIT - bits, LongStart(lens, bits), bits, lens);
    EntryOrder(bits, Pow2(bits), from);
    forall i: nat | i < Pow2(bits) && EntryBase(bits, i) >= LongStart(lens, bits) ensures from != 0 && from <= i {
      EntryOrder(bits, i, if from != 0 then from else Pow2(bits));
    }
  }

  /** Zero the entries that lead to long codes. */
  method ClearLong(lens: seq<nat>, bits: nat, first: u16, table: array<u16>)
    requires (Complete(lens) || Unused(lens)) && 1 <= bits < CODE_BIT && |lens| < Pow2(bits + 1) &&
      table.Length >= Pow2(bits)
    requires first == LongStart(lens, bits) % 0x1_0000
    modifies table
    ensures Complete(lens) ==>
      forall i: nat :: i < Pow2(bits) && EntryBase(bits, i) >= LongStart(lens, bits) ==> table[i] == 0
    ensures !Complete(lens) ==> table[..] == old(table[..])
  {
    if Complete(lens) {
      ClearFrom(lens, bits, first);
    } else {
      StartUnused(lens, bits + 1);
      ShrLess(0, CODE_BIT - bits);
    }
    var index := Shr(first, CODE_BIT - bits);
    ghost var from := index;
    if index != 0 {
      while index != Pow2(bits)
        invariant from <= index <= Pow2(bits)
        invariant forall i :: from <= i < index ==> table[i] == 0
        decreases Pow2(bits) - index
      {
        table[index] := 0;
        index := index + 1;
      }
    }
  }

  /** Advancing the start of one class keeps the others. */
  lemma StartAdvances(lens: seq<nat>, bits: nat, c: nat, start: seq<u16>, next: nat)
    requires Complete(lens) && 1 <= bits < CODE_BIT && c < |lens| && StartsHold(lens, bits, c, start)
    requires lens[c] > 0 ==> next == start[lens[c]] + WeightOf(bits, lens[c])
    ensures lens[c] == 0 ==> StartsHold(lens, bits, c + 1, start)
    ensures lens[c] > 0 ==> next < 0x1_0001 && StartsHold(lens, bits, c + 1, start[lens[c] := next % 0x1_0000])
  {
    if lens[c] > 0 {
      StartAdvancesOne(lens, bits, c, start[lens[c]], next);
      assert forall l :: 1 <= l <= CODE_BIT ==> StartHolds(lens, bits, l, c, start[l]);
    } else {
      assert forall l :: 1 <= l <= CODE_BIT ==> StartHolds(lens, bits, l, c, start[l]);
    }
  }

  lemma StartAdvancesOne(lens: seq<nat>, bits: nat, c: nat, x: nat, next: nat)
    requires Complete(lens) && 1 <= bits < CODE_BIT && c < |lens| && lens[c] > 0
    requires StartHolds(lens, bits, lens[c], c, x) && next == x + WeightOf(bits, lens[c])
    ensures next < 0x1_0001 && StartHolds(lens, bits, lens[c], c + 1, next % 0x1_0000)
  {
    hide Kraft, Shr, Scale, Pow2, FirstCode;
    ClassStart(lens, bits, c, x);
    NextClassPos(lens, c);
    if lens[c] <= bits {
      ShortNext(lens, bits, c, x);
    }
    if CountUpTo(lens, lens[c], c + 1) < Count(lens, lens[c]) {
      RoomLeft(lens, lens[c], c + 1);
    }
  }

  /** The next code of the same length follows directly. */
  lemma NextClassPos(lens: seq<nat>, c: nat)
    requires Coded(lens, c) && Pos(lens, c) == NextPos(lens, lens[c], c)
    ensures NextPos(lens, lens[c], c + 1) == Pos(lens, c) + Size(lens, c)
  {
    ScaleNext(CountUpTo(lens, lens[c], c), CODE_BIT - lens[c]);
  }

  /** A short code takes WeightOf entries of the table. */
  lemma ShortEnd(lens: seq<nat>, bits: nat, c: nat, x: nat)
    requires 1 <= bits < CODE_BIT && Coded(lens, c) && lens[c] <= bits
    requires Pos(lens, c) == EntryBase(bits, x)
    ensures EntryBase(bits, x + Pow2(bits - lens[c])) == Pos(lens, c) + Size(lens, c)
  {
    ScaleAdd(x, Pow2(bits - lens[c]), CODE_BIT - bits);
    ScalePow2(bits - lens[c], CODE_BIT - bits);
  }

  lemma ShortNext(lens: seq<nat>, bits: nat, c: nat, x: nat)
    requires Complete(lens) && 1 <= bits < CODE_BIT && Coded(lens, c) && lens[c] <= bits
    requires Pos(lens, c) == EntryBase(bits, x)
    ensures EntryBase(bits, x + WeightOf(bits, lens[c])) == Pos(lens, c) + Size(lens, c)
    ensures x + WeightOf(bits, lens[c]) <= Pow2(bits) < 0x1_0000
  {
    ShortEnd(lens, bits, c, x);
    InsideSpace(lens, c);
    TableEnd(bits);
    EntryOrder(bits, Pow2(bits), x + WeightOf(bits, lens[c]));
    TableSmall(bits);
  }

  lemma TableSmall(bits: nat)
    requires bits < CODE_BIT
    ensures Pow2(bits) < 0x1_0000
  {
    Pow2Literals();
    Pow2Mono(bits, 15);
  }

  /** The class start of symbol c is where its code lies. */
  lemma ClassStart(lens: seq<nat>, bits: nat, c: nat, x: nat)
    requires Complete(lens) && 1 <= bits < CODE_BIT && c < |lens| && lens[c] > 0
    requires StartHolds(lens, bits, lens[c], c, x)
    ensures Coded(lens, c)
    ensures Pos(lens, c) == if lens[c] <= bits then EntryBase(bits, x) else x
    ensures Pos(lens, c) == NextPos(lens, lens[c], c)
    ensures Pos(lens, c) + Size(lens, c) <= CODE_SPACE
  {
    PosFromStart(lens, c);
    CountMono(lens, lens[c], c + 1, |lens|);
    InsideSpace(lens, c);
  }

  /** Enter a short code: it fills consecutive entries of the table. */
  method EnterShort(lens: seq<nat>, bits: nat, c: u16, first: u16, table: array<u16>,
                    ghost left: seq<u16>, ghost right: seq<u16>, ghost nodes: seq<Node>)
    requires Complete(lens) && Coded(lens, c) && lens[c] <= bits
    requires Built(lens, bits, Trie(table[..], left, right), nodes, c)
    requires Pos(lens, c) == EntryBase(bits, first)
    modifies table
    ensures Built(lens, bits, Trie(table[..], left, right), nodes, c + 1)
  {
    ghost var t := Trie(table[..], left, right);
    ShortNext(lens, bits, c, first);
    var next := first + Pow2(bits - lens[c]);
    var i := first;
    while i < next
      invariant first <= i <= next
      invariant forall k :: 0 <= k < table.Length ==> table[k] == if first <= k < i then c else t.table[k]
    {
      table[i] := c;
      i := i + 1;
    }
    ghost var t' := Trie(table[..], left, right);
    forall k: nat | k < Pow2(bits)
      ensures t'.table[k] == if Within(lens, c, EntryBase(bits, k)) then c else t.table[k]
    {
      EntryOrder(bits, k, first);
      EntryOrder(bits, k, next);
    }
    StepShort(lens, bits, t, t', nodes, c);
  }

  // ---- The tree ---------------------------------------------------------------------------------

  lemma SideBit(lens: seq<nat>, bits: nat, nodes: seq<Node>, c: nat, x: nat)
    requires bits < CODE_BIT && NodesOk(lens, bits, nodes) && |lens| <= x < |lens| + |nodes| && Coded(lens, c)
    requires Inside(lens, c, nodes[x - |lens|].a, nodes[x - |lens|].h + 1)
    ensures Bit(Pos(lens, c), nodes[x - |lens|].h) <==> Side(lens, nodes, c, x).InRight?
  {
    NodeBlock(lens, bits, nodes, x - |lens|);
    SizePositive(lens, c);
    HalfBit(Pos(lens, c), nodes[x - |lens|].a, nodes[x - |lens|].h);
  }

  /** The bit of the shifted code that Index3 & Mask looks at: which half of the block the code lies in. */
  lemma BranchBit(lens: seq<nat>, bits: nat, nodes: seq<Node>, c: nat, x: nat, index3: nat, k: nat)
    requires bits < CODE_BIT && NodesOk(lens, bits, nodes) && |lens| <= x < |lens| + |nodes| && Coded(lens, c)
    requires nodes[x - |lens|].h + k + 1 == CODE_BIT - bits
    requires Inside(lens, c, nodes[x - |lens|].a, nodes[x - |lens|].h + 1)
    requires index3 == Low(Scale(Pos(lens, c), k), CODE_BIT)
    ensures Bit(index3, CODE_BIT - 1 - bits) <==> Side(lens, nodes, c, x).InRight?
  {
    SideBit(lens, bits, nodes, c, x);
    ShiftedBit(Pos(lens, c), k, CODE_BIT - 1 - bits, CODE_BIT);
  }

  lemma ShiftedBit(x: nat, k: nat, b: nat, n: nat)
    requires k <= b < n
    ensures Bit(Low(Scale(x, k), n), b) <==> Bit(x, b - k)
  {
    BitOfLow(Scale(x, k), n, b);
    BitOfScale(x, k, b);
  }

  /** Doubling a truncated word truncates the doubled word. */
  lemma LowTwice(x: nat, n: nat)
    ensures Low(2 * Low(x, n), n) == Low(2 * x, n)
  {
    if n > 0 {
      LowLow(x, n, n - 1);
      LowDouble(x, n);
      LowDouble(Low(x, n), n);
    }
  }

  lemma LowDouble(x: nat, n: nat)
    requires n > 0
    ensures Low(2 * x, n) == 2 * Low(x, n - 1)
  {
    assert 2 * x / 2 == x;
  }

  lemma {:induction false} LowLow(x: nat, n: nat, m: nat)
    requires m <= n
    ensures Low(Low(x, n), m) == Low(x, m)
    decreases m
  {
    if m > 0 {
      LowLow(x / 2, n - 1, m - 1);
    }
  }

  ghost function Snap(table: array<u16>, left: array<u16>, right: array<u16>): Trie
    reads table, left, right
  {
    Trie(table[..], left[..], right[..])
  }

  method ReadAt(p: Ptr, table: array<u16>, left: array<u16>, right: array<u16>) returns (x: u16)
    requires InRange(Snap(table, left, right), p)
    ensures x == Deref(Snap(table, left, right), p)
  {
    match p
    case InTable(i) => x := table[i];
    case InLeft(v) => x := left[v];
    case InRight(v) => x := right[v];
  }

  method WriteAt(p: Ptr, x: u16, table: array<u16>, left: array<u16>, right: array<u16>)
    requires InRange(Snap(table, left, right), p)
    requires table != left && table != right && left != right
    modifies table, left, right
    ensures Snap(table, left, right) == Assign(old(Snap(table, left, right)), p, x)
  {
    match p
    case InTable(i) => table[i] := x;
    case InLeft(v) => left[v] := x;
    case InRight(v) => right[v] := x;
    assert table[..] == Assign(old(Snap(table, left, right)), p, x).table;
    assert left[..] == Assign(old(Snap(table, left, right)), p, x).left;
    assert right[..] == Assign(old(Snap(table, left, right)), p, x).right;
  }

  /** Nodes outside [n, n + k) are as they were. */
  ghost predicate OthersKept(t: Trie, t': Trie, n: nat, k: nat) {
    && |t'.left| == |t.left| && |t'.right| == |t.right| && |t'.table| == |t.table|
    && forall v :: 0 <= v < |t.left| && 0 <= v < |t.right| && (v < n || v >= n + k) ==>
         t'.left[v] == t.left[v] && t'.right[v] == t.right[v]
  }

  /** Make sure the place p on the way to c holds a node, allocating one if it is empty. */
  method EnsureNode(lens: seq<nat>, bits: nat, c: u16, p: Ptr, avail: u16,
                    table: array<u16>, left: array<u16>, right: array<u16>, ghost nodes: seq<Node>)
    returns (avail': u16, ghost nodes': seq<Node>)
    requires table != left && table != right && left != right
    requires Inserting(lens, bits, Snap(table, left, right), nodes, c, p)
    requires CODE_BIT - lens[c] < Exp(bits, |lens|, nodes, p) && avail == |lens| + |nodes|
    requires 2 * |lens| < 0x1_0000
    modifies table, left, right
    ensures Inserting(lens, bits, Snap(table, left, right), nodes', c, p)
    ensures InRange(Snap(table, left, right), p) && Deref(Snap(table, left, right), p) >= |lens|
    ensures avail' == |lens| + |nodes'| && |nodes| <= |nodes'|
    ensures Exp(bits, |lens|, nodes', p) == Exp(bits, |lens|, nodes, p)
    ensures OthersKept(old(Snap(table, left, right)), Snap(table, left, right), |lens|, |nodes'|)
  {
    ghost var t := Snap(table, left, right);
    NoSymbolOnPath(lens, bits, t, nodes, c, p);
    avail', nodes' := avail, nodes;
    var x := ReadAt(p, table, left, right);
    if x == 0 {
      AllocNodes(lens, bits, t, nodes, c, p);
      nodes' := nodes + [NewNode(lens, bits, nodes, c, p)];
      NodeBound(lens, bits, nodes');
      StepAlloc(lens, bits, t, nodes, c, p);
      SlotStays(bits, |lens|, nodes, NewNode(lens, bits, nodes, c, p), p);
      Allocate(p, avail, table, left, right);
      avail' := avail + 1;
    }
  }

  method Allocate(p: Ptr, avail: u16, table: array<u16>, left: array<u16>, right: array<u16>)
    requires table != left && table != right && left != right
    requires InRange(Snap(table, left, right), p) && avail < left.Length && avail < right.Length
    requires !p.InTable? ==> p.v < avail
    modifies table, left, right
    ensures Snap(table, left, right) == Allocated(old(Snap(table, left, right)), p, avail)
  {
    ghost var t := Snap(table, left, right);
    left[avail] := 0;
    right[avail] := 0;
    assert Snap(table, left, right) == t.(left := t.left[avail := 0], right := t.right[avail := 0]);
    WriteAt(p, avail, table, left, right);
  }

  /** One turn of the loop that walks to the place of a long code. */
  method Descend(lens: seq<nat>, bits: nat, c: u16, p: Ptr, index3: u16, avail: u16, ghost first: u16, ghost k: nat,
                 table: array<u16>, left: array<u16>, right: array<u16>, ghost nodes: seq<Node>)
    returns (q: Ptr, index3': u16, avail': u16, ghost nodes': seq<Node>)
    requires table != left && table != right && left != right
    requires Inserting(lens, bits, Snap(table, left, right), nodes, c, p)
    requires CODE_BIT - lens[c] < Exp(bits, |lens|, nodes, p) && avail == |lens| + |nodes|
    requires Exp(bits, |lens|, nodes, p) + k == CODE_BIT - bits
    requires first == Pos(lens, c) && index3 == Shifted(first, k)
    requires 2 * |lens| < 0x1_0000
    modifies table, left, right
    ensures Inserting(lens, bits, Snap(table, left, right), nodes', c, q)
    ensures index3' == Shifted(first, k + 1)
    ensures avail' == |lens| + |nodes'| && |nodes| <= |nodes'|
    ensures Exp(bits, |lens|, nodes', q) + 1 == Exp(bits, |lens|, nodes, p)
    ensures OthersKept(old(Snap(table, left, right)), Snap(table, left, right), |lens|, |nodes'|)
  {
    avail', nodes' := EnsureNode(lens, bits, c, p, avail, table, left, right, nodes);
    var x := ReadAt(p, table, left, right);
    StepDown(lens, bits, Snap(table, left, right), nodes', c, p);
    BranchStep(lens, bits, Snap(table, left, right), nodes', c, p, first, index3, k);
    q := if TestMask(index3, Pow2(15 - bits)) then InRight(x) else InLeft(x);
    index3' := Double16(index3);
  }

  /** Index3 after k turns: the 16-bit word first shifted left k times. */
  function Shifted(first: u16, k: nat): u16 {
    if k == 0 then first else Double16(Shifted(first, k - 1))
  }

  /** The C statement `Index3 <<= 1`. */
  function Double16(x: u16): u16 {
    Pow2Literals();
    Low(2 * x, CODE_BIT)
  }

  lemma {:induction false} ShiftedIsLow(first: u16, k: nat)
    ensures Shifted(first, k) == Low(Scale(first, k), CODE_BIT)
  {
    if k == 0 {
      Pow2Literals();
      LowIsId(first, CODE_BIT);
    } else {
      ShiftedIsLow(first, k - 1);
      LowTwice(Scale(first, k - 1), CODE_BIT);
    }
  }

  lemma BranchStep(lens: seq<nat>, bits: nat, t: Trie, nodes: seq<Node>, c: nat, p: Ptr, first: u16, index3: nat,
                   k: nat)
    requires Inserting(lens, bits, t, nodes, c, p) && InRange(t, p) && |lens| <= Deref(t, p) < |lens| + |nodes|
    requires Exp(bits, |lens|, nodes, p) + k == CODE_BIT - bits
    requires first == Pos(lens, c) && index3 == Shifted(first, k)
    ensures TestMask(index3, Pow2(15 - bits)) <==> Side(lens, nodes, c, Deref(t, p)).InRight?
  {
    assert SlotGood(lens, bits, t, nodes, c, p);
    ShiftedIsLow(first, k);
    BranchBit(lens, bits, nodes, c, Deref(t, p), index3, k);
    MaskIsBit(index3, CODE_BIT - 1 - bits);
  }

  lemma OthersKeptTrans(t: Trie, t': Trie, t'': Trie, n: nat, k: nat, m: nat)
    requires OthersKept(t, t', n, k) && OthersKept(t', t'', n, m) && k <= m && |t.left| == |t.right|
    ensures OthersKept(t, t'', n, m)
  {
  }

  lemma OthersKeptSame(t: Trie, n: nat, k: nat)
    ensures OthersKept(t, t, n, k)
  {
  }

  lemma LowIsId(x: nat, n: nat)
    requires x < Pow2(n)
    ensures Low(x, n) == x
  {
    if n > 0 { LowIsId(x / 2, n - 1); }
  }

  /** The table entry a long code starts from. */
  lemma EntryOfLong(lens: seq<nat>, bits: nat, nodes: seq<Node>, c: nat)
    requires Complete(lens) && 1 <= bits < CODE_BIT && Coded(lens, c) && lens[c] > bits
    ensures var p := InTable(Shr(Pos(lens, c), CODE_BIT - bits));
      && Slot(bits, |lens|, nodes, p) && LongSlot(lens, bits, p)
      && Inside(lens, c, Base(bits, |lens|, nodes, p), CODE_BIT - bits)
  {
    var j := CODE_BIT - bits;
    var w := Pos(lens, c);
    InsideSpace(lens, c);
    SizePositive(lens, c);
    TopBits(w, bits);
    Split(w, j);
    var i := Shr(w, j);
    EntryAligned(bits, i);
    MeetsInside(lens, c, EntryBase(bits, i), j);
    LongAbove(lens, bits, c);
    StartEntry(lens, bits, bits);
    var first := Shr(LongStart(lens, bits), j);
    if i < first {
      EntryMono(bits, i, first);
    } else {
      ScaleMono(first, i, j);
    }
  }

  lemma StartPath(lens: seq<nat>, bits: nat, t: Trie, nodes: seq<Node>, c: nat)
    requires Complete(lens) && Built(lens, bits, t, nodes, c) && Coded(lens, c) && lens[c] > bits
    ensures Inserting(lens, bits, t, nodes, c, InTable(Shr(Pos(lens, c), CODE_BIT - bits)))
  {
    EntryOfLong(lens, bits, nodes, c);
    forall q | Slot(bits, |lens|, nodes, q)
      ensures Exp(bits, |lens|, nodes, q) <= CODE_BIT - bits
    {
      SlotAligned(lens, bits, nodes, q);
    }
  }

  /** Walk down the bits of a long code to the place where its symbol belongs. */
  method WalkDown(lens: seq<nat>, bits: nat, c: u16, first: u16, entry: Ptr, avail: u16,
                  table: array<u16>, left: array<u16>, right: array<u16>, ghost nodes: seq<Node>)
    returns (p: Ptr, avail': u16, ghost nodes': seq<Node>)
    requires table != left && table != right && left != right
    requires bits < CODE_BIT && Coded(lens, c) && first == Pos(lens, c) && avail == |lens| + |nodes|
    requires Inserting(lens, bits, Snap(table, left, right), nodes, c, entry)
    requires Exp(bits, |lens|, nodes, entry) == CODE_BIT - bits
    requires 2 * |lens| < 0x1_0000
    modifies table, left, right
    ensures Inserting(lens, bits, Snap(table, left, right), nodes', c, p)
    ensures CODE_BIT - lens[c] == Exp(bits, |lens|, nodes', p)
    ensures avail' == |lens| + |nodes'| && |nodes| <= |nodes'|
    ensures OthersKept(old(Snap(table, left, right)), Snap(table, left, right), |lens|, |nodes'|)
  {
    ghost var t := Snap(table, left, right);
    avail', nodes', p := avail, nodes, entry;
    var index3 := first;
    var index: nat := lens[c] - bits;
    ghost var k: nat := 0;
    OthersKeptSame(t, |lens|, |nodes|);
    assert index3 == Shifted(first, k);
    hide Built, Complete, LongSlot, Inside, PathFull, OthersKept, Pos, Shifted, Exp;
    while index != 0
      invariant Inserting(lens, bits, Snap(table, left, right), nodes', c, p)
      invariant index + k == lens[c] - bits && Exp(bits, |lens|, nodes', p) + k == CODE_BIT - bits
      invariant index3 == Shifted(first, k)
      invariant avail' == |lens| + |nodes'| && |nodes| <= |nodes'|
      invariant OthersKept(t, Snap(table, left, right), |lens|, |nodes'|)
      decreases index
    {
      ghost var t', m := Snap(table, left, right), |nodes'|;
      p, index3, avail', nodes' := Descend(lens, bits, c, p, index3, avail', first, k, table, left, right, nodes');
      OthersKeptTrans(t, t', Snap(table, left, right), |lens|, m, |nodes'|);
      index := index - 1;
      assert index3 == Shifted(first, k + 1);
      k := k + 1;
    }
  }

  /** Enter a long code: walk to its place, then write the symbol. */
  method EnterLong(lens: seq<nat>, bits: nat, c: u16, first: u16, avail: u16,
                   table: array<u16>, left: array<u16>, right: array<u16>, ghost nodes: seq<Node>)
    returns (avail': u16, ghost nodes': seq<Node>)
    requires table != left && table != right && left != right
    requires Complete(lens) && Built(lens, bits, Snap(table, left, right), nodes, c)
    requires Coded(lens, c) && lens[c] > bits && first == Pos(lens, c) && avail == |lens| + |nodes|
    requires 2 * |lens| < 0x1_0000
    modifies table, left, right
    ensures Built(lens, bits, Snap(table, left, right), nodes', c + 1)
    ensures avail' == |lens| + |nodes'| && |nodes| <= |nodes'|
    ensures OthersKept(old(Snap(table, left, right)), Snap(table, left, right), |lens|, |nodes'|)
  {
    StartPath(lens, bits, Snap(table, left, right), nodes, c);
    var p;
    var entry := InTable(Shr(first, 16 - bits));
    p, avail', nodes' := WalkDown(lens, bits, c, first, entry, avail, table, left, right, nodes);
    WritePlace(lens, bits, Snap(table, left, right), nodes', c, p);
    WriteAt(p, c, table, left, right);
  }

  /** The place of the symbol belongs to the table or to one of these nodes. */
  lemma WritePlace(lens: seq<nat>, bits: nat, t: Trie, nodes: seq<Node>, c: u16, p: Ptr)
    requires Inserting(lens, bits, t, nodes, c, p)
    requires CODE_BIT - lens[c] == Exp(bits, |lens|, nodes, p)
    ensures InRange(t, p) && Built(lens, bits, Assign(t, p, c), nodes, c + 1)
    ensures !p.InTable? ==> |lens| <= p.v < |lens| + |nodes|
    ensures OthersKept(t, Assign(t, p, c), |lens|, |nodes|)
  {
    assert SlotGood(lens, bits, t, nodes, c, p);
    StepWrite(lens, bits, t, nodes, c, p);
  }

  // ---- The whole table --------------------------------------------------------------------------

  /** One symbol: skip it, fill its entries, or enter it in the tree; then advance the start of its class. */
  method EnterSymbol(lens: seq<nat>, bits: nat, c: u16, start: array<u16>, weight: array<u16>, avail: u16,
                     table: array<u16>, left: array<u16>, right: array<u16>, ghost nodes: seq<Node>)
    returns (avail': u16, ghost nodes': seq<Node>)
    requires table != left && table != right && left != right
    requires start != table && start != left && start != right && weight != table && weight != left && weight != right
    requires weight != start
    requires (Complete(lens) || Unused(lens)) && c < |lens| && 2 * |lens| < 0x1_0000 && avail == |lens| + |nodes|
    requires WeightsHold(bits, weight[..])
    requires Complete(lens) ==>
      Built(lens, bits, Snap(table, left, right), nodes, c) && StartsHold(lens, bits, c, start[..])
    modifies start, table, left, right
    ensures Complete(lens) ==>
      Built(lens, bits, Snap(table, left, right), nodes', c + 1) && StartsHold(lens, bits, c + 1, start[..])
    ensures !Complete(lens) ==> Snap(table, left, right) == old(Snap(table, left, right))
    ensures avail' == |lens| + |nodes'| && |nodes| <= |nodes'|
    ensures OthersKept(old(Snap(table, left, right)), Snap(table, left, right), |lens|, |nodes'|)
  {
    avail', nodes' := avail, nodes;
    if lens[c] == 0 {
      if Complete(lens) {
        StartAdvances(lens, bits, c, start[..], 0);
        StepUnused(lens, bits, Snap(table, left, right), nodes, c);
      }
      return;
    }
    var l := lens[c];
    var first: int := start[l];
    assert StartHolds(lens, bits, l, c, start[..][l]) && weight[..][l] == WeightOf(bits, l);
    ClassStart(lens, bits, c, first);
    var next: int := first + weight[l];
    StartAdvances(lens, bits, c, start[..], next);
    ghost var starts := start[..][l := next % 0x1_0000];
    if l <= bits {
      EnterShort(lens, bits, c, first, table, left[..], right[..], nodes);
    } else {
      avail', nodes' := EnterLong(lens, bits, c, first, avail, table, left, right, nodes);
    }
    start[l] := next % 0x1_0000;
    assert start[..] == starts;
  }

  /** Enter every symbol in turn. */
  method EnterAll(lens: seq<nat>, bits: nat, start: array<u16>, weight: array<u16>,
                  table: array<u16>, left: array<u16>, right: array<u16>)
    returns (ghost nodes: seq<Node>)
    requires table != left && table != right && left != right
    requires start != table && start != left && start != right && weight != table && weight != left && weight != right
    requires weight != start
    requires (Complete(lens) || Unused(lens)) && 0 < 2 * |lens| < 0x1_0000 && WeightsHold(bits, weight[..])
    requires left.Length == right.Length
    requires Complete(lens) ==>
      Built(lens, bits, Snap(table, left, right), [], 0) && StartsHold(lens, bits, 0, start[..])
    modifies start, table, left, right
    ensures Complete(lens) ==> Built(lens, bits, Snap(table, left, right), nodes, |lens|)
    ensures !Complete(lens) ==> Snap(table, left, right) == old(Snap(table, left, right))
    ensures OthersKept(old(Snap(table, left, right)), Snap(table, left, right), |lens|, |nodes|)
  {
    var avail: u16 := |lens|;
    var c := 0;
    nodes := [];
    ghost var t := Snap(table, left, right);
    while c < |lens|
      invariant 0 <= c <= |lens| && avail == |lens| + |nodes|
      invariant Complete(lens) ==>
        Built(lens, bits, Snap(table, left, right), nodes, c) && StartsHold(lens, bits, c, start[..])
      invariant !Complete(lens) ==> Snap(table, left, right) == t
      invariant weight[..] == old(weight[..])
      invariant OthersKept(t, Snap(table, left, right), |lens|, |nodes|)
    {
      ghost var t', m := Snap(table, left, right), |nodes|;
      avail, nodes := EnterSymbol(lens, bits, c, start, weight, avail, table, left, right, nodes);
      OthersKeptTrans(t, t', Snap(table, left, right), |lens|, m, |nodes|);
      c := c + 1;
    }
  }

  lemma SymbolsFit(n: nat, bits: nat)
    requires bits < CODE_BIT && n < Pow2(bits + 1)
    ensures n < 0x1_0000
  {
    Pow2Mono(bits + 1, CODE_BIT);
    Pow2Literals();
  }

  // ---- What the check lets through --------------------------------------------------------------

  lemma {:induction false} KraftZero(lens: seq<nat>, c: nat)
    requires ValidLengths(lens) && c <= |lens|
    ensures Kraft(lens, c) == 0 <==> forall i :: 0 <= i < c ==> lens[i] == 0
  {
    if c > 0 { KraftZero(lens, c - 1); }
  }

  /** The longest length in use, and the last symbol that has it. */
  lemma {:induction false} LastOfLength(lens: seq<nat>, l: nat, n: nat) returns (c: nat)
    requires n <= |lens| && 1 <= l <= CODE_BIT && CountUpTo(lens, l, n) > 0
    ensures Coded(lens, c) && lens[c] == l && CountUpTo(lens, l, c) + 1 == CountUpTo(lens, l, n)
  {
    if lens[n - 1] == l { c := n - 1; } else { c := LastOfLength(lens, l, n - 1); }
  }

  lemma StartNext(lens: seq<nat>, l: nat)
    requires 1 <= l <= CODE_BIT
    ensures Start(lens, l + 1) == Start(lens, l) + Scale(Count(lens, l), CODE_BIT - l)
  {
  }

  lemma {:induction false} LongestLength(lens: seq<nat>, m: nat) returns (l: nat)
    requires m <= CODE_BIT && Start(lens, m + 1) > 0
    ensures 1 <= l <= m && Count(lens, l) > 0 && Start(lens, l + 1) == Start(lens, m + 1)
    decreases m
  {
    StartNext(lens, m);
    if Count(lens, m) > 0 {
      l := m;
    } else {
      ScaleOne(CODE_BIT - m);
      l := LongestLength(lens, m - 1);
    }
  }

  /** Too large a Kraft sum means a code that does not fit into its own length. */
  lemma CodeOverflows(lens: seq<nat>) returns (c: nat)
    requires ValidLengths(lens) && Kraft(lens, |lens|) > CODE_SPACE
    ensures Coded(lens, c) && CodeOf(lens, c) >= Pow2(lens[c])
  {
    StartIsKraft(lens, |lens|);
    var l := LongestLength(lens, CODE_BIT);
    c := LastOfLength(lens, l, |lens|);
    StartNext(lens, l);
    PosFromStart(lens, c);
    ScaleNext(CountUpTo(lens, l, c), CODE_BIT - l);
    if CodeOf(lens, c) < Pow2(l) {
      ScaleStrict(CodeOf(lens, c), Pow2(l), CODE_BIT - l);
      ScalePow2(l, CODE_BIT - l);
      Pow2Literals();
    }
  }

  /** And the other way round. */
  lemma OverflowIsLarge(lens: seq<nat>, c: nat)
    requires ValidLengths(lens) && Coded(lens, c) && CodeOf(lens, c) >= Pow2(lens[c])
    ensures Kraft(lens, |lens|) > CODE_SPACE
  {
    ScaleMono(Pow2(lens[c]), CodeOf(lens, c), CODE_BIT - lens[c]);
    ScalePow2(lens[c], CODE_BIT - lens[c]);
    Pow2Literals();
    InsideClass(lens, c);
    StartMono(lens, lens[c] + 1, CODE_BIT + 1);
    StartIsKraft(lens, |lens|);
    ScaleOne(CODE_BIT - lens[c]);
    Pow2Mono(0, CODE_BIT - lens[c]);
  }

  /** Some symbol's code does not fit into its own length, so that no window begins with it. */
  predicate Overflows(lens: seq<nat>) {
    exists c :: 0 <= c < |lens| && Coded(lens, c) && CodeOf(lens, c) >= Pow2(lens[c])
  }

  /** The check lets through lengths that are no complete code exactly when their Kraft sum is zero, that is, no symbol
      has a code, or another multiple of 2^16, and then some code overflows. */
  lemma AcceptedButIncomplete(lens: seq<nat>)
    requires ValidLengths(lens)
    ensures var sum := Kraft(lens, |lens|);
      && (Accepted(lens) && !Complete(lens) <==> sum == 0 || (sum % CODE_SPACE == 0 && sum >= 2 * CODE_SPACE))
      && (sum == 0 <==> forall c :: 0 <= c < |lens| ==> lens[c] == 0)
      && (sum > CODE_SPACE <==> Overflows(lens))
  {
    KraftZero(lens, |lens|);
    if Kraft(lens, |lens|) > CODE_SPACE {
      var c := CodeOverflows(lens);
    } else if Overflows(lens) {
      var c :| 0 <= c < |lens| && Coded(lens, c) && CodeOf(lens, c) >= Pow2(lens[c]);
      OverflowIsLarge(lens, c);
    }
  }

  lemma CompleteFits(lens: seq<nat>)
    requires ValidLengths(lens) && (Accepted(lens) ==> Complete(lens))
    ensures Accepted(lens) ==> !Overflows(lens)
  {
    AcceptedButIncomplete(lens);
  }

  lemma {:induction false} KraftTail(lens: seq<nat>, n: nat, c: nat)
    requires ValidLengths(lens) && n <= c <= |lens| && forall i :: n <= i < c ==> lens[i] == 0
    ensures Kraft(lens, c) == Kraft(lens, n)
  {
    if n < c { KraftTail(lens, n, c - 1); }
  }

  /** Both occur for the 19 lengths of an Extra Set: none used, and four symbols with a code of one bit. */
  lemma BothAccepted()
    ensures var none, four := seq(19, _ => 0), seq(19, i => if i < 4 then 1 else 0);
      Accepted(none) && !Complete(none) && Accepted(four) && !Complete(four)
  {
    var none, four := seq(19, _ => 0), seq(19, i => if i < 4 then 1 else 0);
    KraftTail(none, 0, 19);
    KraftTail(four, 4, 19);
    Pow2Literals();
    assert Kraft(four, 1) == Pow2(15);
    assert Kraft(four, 2) == 2 * Pow2(15);
    assert Kraft(four, 3) == 3 * Pow2(15);
  }

  // ---- MakeTable --------------------------------------------------------------------------------

  /** Lengths without an overflowing code are refused, or are a complete code, or use no symbol at all; then everything
      stays as it was. Accepted lengths with an overflowing code have no meaning in the format and are left out. */
  method MakeTable(lens: seq<nat>, bits: nat, table: array<u16>, left: array<u16>, right: array<u16>)
    returns (status: u16)
    requires table != left && table != right && left != right
    requires ValidLengths(lens) && 0 < |lens| < Pow2(bits + 1) && 1 <= bits < CODE_BIT
    requires Accepted(lens) ==> !Overflows(lens)
    requires 2 * |lens| < 0x1_0000
    requires table.Length >= Pow2(bits) && left.Length == right.Length && 2 * |lens| - 1 <= left.Length
    modifies table, left, right
    ensures status == if Accepted(lens) then 0 else BAD_TABLE
    ensures Complete(lens) ==> Decodes(Snap(table, left, right), bits, lens)
    ensures !Complete(lens) ==> Snap(table, left, right) == old(Snap(table, left, right))
    ensures OthersKept(old(Snap(table, left, right)), Snap(table, left, right), |lens|, |lens| - 1)
  {
    SymbolsFit(|lens|, bits);
    var count := CountLengths(lens);
    var start := RunningStarts(lens, count);
    StartIsKraft(lens, |lens|);
    AcceptedButIncomplete(lens);
    if start[17] != 0 {
      return BAD_TABLE;
    }
    var first := start[bits + 1];
    var weight := Rescale(lens, bits, start);
    ClearLong(lens, bits, first, table);
    if Complete(lens) { StartEmpty(lens, bits, Snap(table, left, right)); }
    ghost var nodes := EnterAll(lens, bits, start, weight, table, left, right);
    if Complete(lens) {
      NodeBound(lens, bits, nodes);
      BuiltDecodes(lens, bits, Snap(table, left, right), nodes);
    }
    status := 0;
  }
}
