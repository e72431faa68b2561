/** What each step of MakeTable does to the trie: allocate a node, go down one bit, enter a symbol. */
module TrieSteps {
  import opened Words
  import opened CanonicalCode
  import opened HuffmanTrie

  /** Every place above p on the way to the code of c already holds a tree node. */
  ghost predicate PathFull(lens: seq<nat>, bits: nat, t: Trie, nodes: seq<Node>, c: nat, p: Ptr)
    requires bits < CODE_BIT && Coded(lens, c) && Slot(bits, |lens|, nodes, p)
  {
    forall q :: Slot(bits, |lens|, nodes, q) && OnPath(lens, bits, nodes, c, q)
      && Exp(bits, |lens|, nodes, q) > Exp(bits, |lens|, nodes, p)
      ==> InRange(t, q) && Deref(t, q) >= |lens|
  }

  ghost predicate OnPath(lens: seq<nat>, bits: nat, nodes: seq<Node>, c: nat, q: Ptr)
    requires bits < CODE_BIT && Coded(lens, c) && Slot(bits, |lens|, nodes, q)
  {
    Base(bits, |lens|, nodes, q) <= Pos(lens, c) < Base(bits, |lens|, nodes, q) + Pow2(Exp(bits, |lens|, nodes, q))
  }

  /** The symbols below c are entered, and p is on the way to the place of the long code c. */
  ghost predicate Inserting(lens: seq<nat>, bits: nat, t: Trie, nodes: seq<Node>, c: nat, p: Ptr) {
    && Built(lens, bits, t, nodes, c)
    && Complete(lens)
    && Coded(lens, c) && lens[c] > bits
    && Slot(bits, |lens|, nodes, p) && LongSlot(lens, bits, p)
    && Inside(lens, c, Base(bits, |lens|, nodes, p), Exp(bits, |lens|, nodes, p))
    && PathFull(lens, bits, t, nodes, c, p)
  }

  // ---- Going down one bit -----------------------------------------------------------------------

  /** The side of node x that the code of c lies in. */
  function Side(lens: seq<nat>, nodes: seq<Node>, c: nat, x: nat): Ptr
    requires Coded(lens, c) && |lens| <= x < |lens| + |nodes|
  {
    var v := nodes[x - |lens|];
    if Pos(lens, c) >= v.a + Pow2(v.h) then InRight(x) else InLeft(x)
  }

  lemma SideHolds(lens: seq<nat>, bits: nat, nodes: seq<Node>, c: nat, x: nat)
    requires bits < CODE_BIT && NodesOk(lens, bits, nodes) && |lens| <= x < |lens| + |nodes|
    requires Coded(lens, c)
    requires Inside(lens, c, nodes[x - |lens|].a, nodes[x - |lens|].h + 1)
    requires CODE_BIT - lens[c] <= nodes[x - |lens|].h
    ensures var q := Side(lens, nodes, c, x);
      Inside(lens, c, Base(bits, |lens|, nodes, q), Exp(bits, |lens|, nodes, q))
  {
    var v, q := nodes[x - |lens|], Side(lens, nodes, c, x);
    NodeBlock(lens, bits, nodes, x - |lens|);
    HalfAligned(v.a, v.h + 1);
    SizePositive(lens, c);
    MeetsInside(lens, c, Base(bits, |lens|, nodes, q), v.h);
  }

  lemma SizePositive(lens: seq<nat>, c: nat)
    requires Coded(lens, c)
    ensures Size(lens, c) >= 1
  {
  }

  lemma StepDown(lens: seq<nat>, bits: nat, t: Trie, nodes: seq<Node>, c: nat, p: Ptr)
    requires Inserting(lens, bits, t, nodes, c, p)
    requires CODE_BIT - lens[c] < Exp(bits, |lens|, nodes, p)
    requires InRange(t, p) && Deref(t, p) >= |lens|
    ensures Deref(t, p) < |lens| + |nodes|
    ensures Inserting(lens, bits, t, nodes, c, Side(lens, nodes, c, Deref(t, p)))
    ensures Exp(bits, |lens|, nodes, Side(lens, nodes, c, Deref(t, p))) + 1 == Exp(bits, |lens|, nodes, p)
  {
    var x := Deref(t, p);
    assert SlotGood(lens, bits, t, nodes, c, p);
    SideHolds(lens, bits, nodes, c, x);
    PathGrows(lens, bits, t, nodes, c, p, Side(lens, nodes, c, x));
  }

  lemma PathGrows(lens: seq<nat>, bits: nat, t: Trie, nodes: seq<Node>, c: nat, p: Ptr, q: Ptr)
    requires bits < CODE_BIT && NodesOk(lens, bits, nodes) && Coded(lens, c)
    requires Slot(bits, |lens|, nodes, p) && Slot(bits, |lens|, nodes, q)
    requires PathFull(lens, bits, t, nodes, c, p) && OnPath(lens, bits, nodes, c, p)
    requires InRange(t, p) && Deref(t, p) >= |lens|
    requires Exp(bits, |lens|, nodes, q) + 1 == Exp(bits, |lens|, nodes, p)
    ensures PathFull(lens, bits, t, nodes, c, q)
  {
    forall r | Slot(bits, |lens|, nodes, r) && OnPath(lens, bits, nodes, c, r)
      && Exp(bits, |lens|, nodes, r) > Exp(bits, |lens|, nodes, q)
      ensures InRange(t, r) && Deref(t, r) >= |lens|
    {
      if r != p && Exp(bits, |lens|, nodes, r) == Exp(bits, |lens|, nodes, p) {
        SameLevelApart(lens, bits, nodes, c, p, r);
      }
    }
  }

  /** Of two places on one level only one can be on the way to c. */
  lemma SameLevelApart(lens: seq<nat>, bits: nat, nodes: seq<Node>, c: nat, p: Ptr, q: Ptr)
    requires bits < CODE_BIT && NodesOk(lens, bits, nodes) && Coded(lens, c) && p != q
    requires Slot(bits, |lens|, nodes, p) && Slot(bits, |lens|, nodes, q)
    requires Exp(bits, |lens|, nodes, p) == Exp(bits, |lens|, nodes, q)
    requires OnPath(lens, bits, nodes, c, p)
    ensures !OnPath(lens, bits, nodes, c, q)
  {
    SlotUnique(lens, bits, nodes, p, q);
    SlotAligned(lens, bits, nodes, p);
    SlotAligned(lens, bits, nodes, q);
    var a, b := Base(bits, |lens|, nodes, p), Base(bits, |lens|, nodes, q);
    if a < b {
      AlignedApart(a, b, Exp(bits, |lens|, nodes, p));
    } else {
      AlignedApart(b, a, Exp(bits, |lens|, nodes, p));
    }
  }

  // ---- Allocating a node ------------------------------------------------------------------------

  /** On the way to c no place holds a symbol: codes are prefix free. */
  lemma NoSymbolOnPath(lens: seq<nat>, bits: nat, t: Trie, nodes: seq<Node>, c: nat, p: Ptr)
    requires Inserting(lens, bits, t, nodes, c, p)
    ensures InRange(t, p) && (Deref(t, p) == 0 || Deref(t, p) >= |lens|)
  {
    assert SlotGood(lens, bits, t, nodes, c, p);
    var x := Deref(t, p);
    if 0 < x < |lens| {
      Disjoint(lens, x, c);
      SizePositive(lens, c);
    }
  }

  function NewNode(lens: seq<nat>, bits: nat, nodes: seq<Node>, c: nat, p: Ptr): Node
    requires bits < CODE_BIT && Slot(bits, |lens|, nodes, p) && Exp(bits, |lens|, nodes, p) > 0
  {
    Node(Base(bits, |lens|, nodes, p), Exp(bits, |lens|, nodes, p) - 1, p, c)
  }

  /** The writes of one allocation: both sides of the new node are cleared, then the place refers to it. */
  function Allocated(t: Trie, p: Ptr, x: u16): Trie
    requires InRange(t, p) && x < |t.left| && x < |t.right|
  {
    Assign(t.(left := t.left[x := 0], right := t.right[x := 0]), p, x)
  }

  lemma SlotStays(bits: nat, n: nat, nodes: seq<Node>, x: Node, q: Ptr)
    requires bits < CODE_BIT && Slot(bits, n, nodes, q)
    ensures Slot(bits, n, nodes + [x], q)
    ensures Base(bits, n, nodes + [x], q) == Base(bits, n, nodes, q)
    ensures Exp(bits, n, nodes + [x], q) == Exp(bits, n, nodes, q)
  {
  }

  lemma NodeStays(lens: seq<nat>, bits: nat, nodes: seq<Node>, x: Node, v: nat)
    requires bits < CODE_BIT && v < |nodes| && NodeOk(lens, bits, nodes, v)
    ensures NodeOk(lens, bits, nodes + [x], v)
  {
    SlotStays(bits, |lens|, nodes, x, nodes[v].at);
  }

  /** A block reached on the way to a long code lies among the long codes. */
  lemma BlockInSpace(lens: seq<nat>, bits: nat, nodes: seq<Node>, p: Ptr)
    requires bits < CODE_BIT && NodesOk(lens, bits, nodes)
    requires Slot(bits, |lens|, nodes, p) && LongSlot(lens, bits, p)
    ensures Base(bits, |lens|, nodes, p) >= LongStart(lens, bits)
    ensures Base(bits, |lens|, nodes, p) + Pow2(Exp(bits, |lens|, nodes, p)) <= CODE_SPACE
  {
    if p.InTable? {
      ScaleStrict(p.i, Pow2(bits), CODE_BIT - bits);
      ScalePow2(bits, CODE_BIT - bits);
      Pow2Literals();
    } else {
      assert NodeOk(lens, bits, nodes, p.v - |lens|);
    }
  }

  /** A place that holds no node is no node's place, so its block is new. */
  lemma BlockIsNew(lens: seq<nat>, bits: nat, t: Trie, nodes: seq<Node>, p: Ptr, v: nat)
    requires bits < CODE_BIT && NodesOk(lens, bits, nodes) && Linked(lens, t, nodes) && v < |nodes|
    requires Slot(bits, |lens|, nodes, p) && InRange(t, p) && Deref(t, p) < |lens|
    ensures nodes[v].at != p
    ensures nodes[v].a != Base(bits, |lens|, nodes, p) || nodes[v].h + 1 != Exp(bits, |lens|, nodes, p)
  {
    assert NodeOk(lens, bits, nodes, v);
    SlotUnique(lens, bits, nodes, nodes[v].at, p);
  }

  lemma AllocNodes(lens: seq<nat>, bits: nat, t: Trie, nodes: seq<Node>, c: nat, p: Ptr)
    requires Inserting(lens, bits, t, nodes, c, p)
    requires CODE_BIT - lens[c] < Exp(bits, |lens|, nodes, p)
    requires InRange(t, p) && Deref(t, p) < |lens|
    ensures NodesOk(lens, bits, nodes + [NewNode(lens, bits, nodes, c, p)])
  {
    var x := NewNode(lens, bits, nodes, c, p);
    var more := nodes + [x];
    forall v | 0 <= v < |more|
      ensures NodeOk(lens, bits, more, v)
    {
      if v < |nodes| {
        assert NodeOk(lens, bits, nodes, v);
        NodeStays(lens, bits, nodes, x, v);
      } else {
        NewNodeOk(lens, bits, nodes, c, p);
      }
    }
    forall u, v | 0 <= u < v < |more|
      ensures more[u].a != more[v].a || more[u].h != more[v].h
    {
      if v == |nodes| {
        BlockIsNew(lens, bits, t, nodes, p, u);
      }
    }
  }

  lemma NewNodeOk(lens: seq<nat>, bits: nat, nodes: seq<Node>, c: nat, p: Ptr)
    requires bits < CODE_BIT && NodesOk(lens, bits, nodes) && Coded(lens, c)
    requires Slot(bits, |lens|, nodes, p) && LongSlot(lens, bits, p)
    requires Inside(lens, c, Base(bits, |lens|, nodes, p), Exp(bits, |lens|, nodes, p))
    requires CODE_BIT - lens[c] < Exp(bits, |lens|, nodes, p)
    ensures NodeOk(lens, bits, nodes + [NewNode(lens, bits, nodes, c, p)], |nodes|)
  {
    SlotStays(bits, |lens|, nodes, NewNode(lens, bits, nodes, c, p), p);
    SlotAligned(lens, bits, nodes, p);
    BlockInSpace(lens, bits, nodes, p);
  }

  lemma AllocOldSlot(lens: seq<nat>, bits: nat, t: Trie, nodes: seq<Node>, c: nat, p: Ptr, q: Ptr)
    requires Inserting(lens, bits, t, nodes, c, p)
    requires CODE_BIT - lens[c] < Exp(bits, |lens|, nodes, p)
    requires InRange(t, p) && Deref(t, p) == 0 && |lens| + |nodes| < |t.left| && |lens| + |nodes| < 0x1_0000
    requires Slot(bits, |lens|, nodes, q) && LongSlot(lens, bits, q) && q != p
    ensures SlotGood(lens, bits, Allocated(t, p, |lens| + |nodes|), nodes + [NewNode(lens, bits, nodes, c, p)], c, q)
  {
    var x := NewNode(lens, bits, nodes, c, p);
    SlotStays(bits, |lens|, nodes, x, q);
    assert SlotGood(lens, bits, t, nodes, c, q);
    FitsStays(lens, nodes, x, Deref(t, q), Base(bits, |lens|, nodes, q), Exp(bits, |lens|, nodes, q), c);
  }

  lemma AllocNewSide(lens: seq<nat>, bits: nat, t: Trie, nodes: seq<Node>, c: nat, p: Ptr, q: Ptr)
    requires Inserting(lens, bits, t, nodes, c, p)
    requires CODE_BIT - lens[c] < Exp(bits, |lens|, nodes, p)
    requires InRange(t, p) && Deref(t, p) == 0 && |lens| + |nodes| < |t.left| && |lens| + |nodes| < 0x1_0000
    requires q == InLeft(|lens| + |nodes|) || q == InRight(|lens| + |nodes|)
    ensures SlotGood(lens, bits, Allocated(t, p, |lens| + |nodes|), nodes + [NewNode(lens, bits, nodes, c, p)], c, q)
  {
    assert SlotGood(lens, bits, t, nodes, c, p);
    assert Deref(Allocated(t, p, |lens| + |nodes|), q) == 0;
  }

  lemma AllocSlots(lens: seq<nat>, bits: nat, t: Trie, nodes: seq<Node>, c: nat, p: Ptr, q: Ptr)
    requires Inserting(lens, bits, t, nodes, c, p)
    requires CODE_BIT - lens[c] < Exp(bits, |lens|, nodes, p)
    requires InRange(t, p) && Deref(t, p) == 0 && |lens| + |nodes| < |t.left| && |lens| + |nodes| < 0x1_0000
    requires Slot(bits, |lens|, nodes + [NewNode(lens, bits, nodes, c, p)], q) && LongSlot(lens, bits, q)
    ensures SlotGood(lens, bits, Allocated(t, p, |lens| + |nodes|), nodes + [NewNode(lens, bits, nodes, c, p)], c, q)
  {
    if q == p {
      SlotStays(bits, |lens|, nodes, NewNode(lens, bits, nodes, c, p), p);
    } else if Slot(bits, |lens|, nodes, q) {
      AllocOldSlot(lens, bits, t, nodes, c, p, q);
    } else {
      AllocNewSide(lens, bits, t, nodes, c, p, q);
    }
  }

  lemma FitsStays(lens: seq<nat>, nodes: seq<Node>, x: Node, y: nat, a: nat, m: nat, c: nat)
    requires Fits(lens, nodes, y, a, m, c)
    ensures Fits(lens, nodes + [x], y, a, m, c)
  {
  }

  lemma AllocPath(lens: seq<nat>, bits: nat, t: Trie, nodes: seq<Node>, c: nat, p: Ptr)
    requires Inserting(lens, bits, t, nodes, c, p)
    requires CODE_BIT - lens[c] < Exp(bits, |lens|, nodes, p)
    requires InRange(t, p) && |lens| + |nodes| < |t.left| && |lens| + |nodes| < 0x1_0000
    ensures PathFull(lens, bits, Allocated(t, p, |lens| + |nodes|), nodes + [NewNode(lens, bits, nodes, c, p)], c, p)
  {
    var x := NewNode(lens, bits, nodes, c, p);
    var more, t' := nodes + [x], Allocated(t, p, |lens| + |nodes|);
    SlotStays(bits, |lens|, nodes, x, p);
    forall q | Slot(bits, |lens|, more, q) && OnPath(lens, bits, more, c, q)
      && Exp(bits, |lens|, more, q) > Exp(bits, |lens|, more, p)
      ensures InRange(t', q) && Deref(t', q) >= |lens|
    {
      assert Slot(bits, |lens|, nodes, q);
      SlotStays(bits, |lens|, nodes, x, q);
    }
  }

  lemma AllocRest(lens: seq<nat>, bits: nat, t: Trie, nodes: seq<Node>, c: nat, p: Ptr)
    requires Inserting(lens, bits, t, nodes, c, p)
    requires CODE_BIT - lens[c] < Exp(bits, |lens|, nodes, p)
    requires InRange(t, p) && Deref(t, p) < |lens| && |lens| + |nodes| < |t.left| && |lens| + |nodes| < 0x1_0000
    ensures Linked(lens, Allocated(t, p, |lens| + |nodes|), nodes + [NewNode(lens, bits, nodes, c, p)])
    ensures ShortsGood(lens, bits, Allocated(t, p, |lens| + |nodes|), c)
  {
    var more, t' := nodes + [NewNode(lens, bits, nodes, c, p)], Allocated(t, p, |lens| + |nodes|);
    forall v | 0 <= v < |more|
      ensures InRange(t', more[v].at) && Deref(t', more[v].at) == |lens| + v
    {
      if v < |nodes| {
        assert NodeOk(lens, bits, nodes, v);
        BlockIsNew(lens, bits, t, nodes, p, v);
      }
    }
    AllocShorts(lens, bits, t, nodes, c, p);
  }

  lemma AllocShorts(lens: seq<nat>, bits: nat, t: Trie, nodes: seq<Node>, c: nat, p: Ptr)
    requires Inserting(lens, bits, t, nodes, c, p)
    requires InRange(t, p) && |lens| + |nodes| < |t.left| && |lens| + |nodes| < 0x1_0000
    ensures ShortsGood(lens, bits, Allocated(t, p, |lens| + |nodes|), c)
  {
    var t' := Allocated(t, p, |lens| + |nodes|);
    forall i: nat, s: nat |
      i < Pow2(bits) && s < c && Coded(lens, s) && lens[s] <= bits && Within(lens, s, EntryBase(bits, i))
      ensures t'.table[i] == s
    {
      ShortBelow(lens, bits, s);
      assert t.table[i] == s;
    }
  }

  /** Codes that fit the direct table end where the longer ones begin. */
  lemma ShortBelow(lens: seq<nat>, bits: nat, s: nat)
    requires bits < CODE_BIT && Coded(lens, s) && lens[s] <= bits
    ensures Pos(lens, s) + Size(lens, s) <= LongStart(lens, bits)
  {
    InsideClass(lens, s);
    StartMono(lens, lens[s] + 1, bits + 1);
  }

  lemma LongAbove(lens: seq<nat>, bits: nat, s: nat)
    requires bits < CODE_BIT && Coded(lens, s) && lens[s] > bits
    ensures Pos(lens, s) >= LongStart(lens, bits)
  {
    InsideClass(lens, s);
    StartMono(lens, bits + 1, lens[s]);
  }

  lemma StepAlloc(lens: seq<nat>, bits: nat, t: Trie, nodes: seq<Node>, c: nat, p: Ptr)
    requires Inserting(lens, bits, t, nodes, c, p)
    requires CODE_BIT - lens[c] < Exp(bits, |lens|, nodes, p)
    requires InRange(t, p) && Deref(t, p) == 0 && |lens| + |nodes| < |t.left| && |lens| + |nodes| < 0x1_0000
    ensures Inserting(lens, bits, Allocated(t, p, |lens| + |nodes|), nodes + [NewNode(lens, bits, nodes, c, p)], c, p)
  {
    var more, t' := nodes + [NewNode(lens, bits, nodes, c, p)], Allocated(t, p, |lens| + |nodes|);
    AllocNodes(lens, bits, t, nodes, c, p);
    AllocRest(lens, bits, t, nodes, c, p);
    AllocPath(lens, bits, t, nodes, c, p);
    SlotStays(bits, |lens|, nodes, NewNode(lens, bits, nodes, c, p), p);
    forall q | Slot(bits, |lens|, more, q) && LongSlot(lens, bits, q)
      ensures SlotGood(lens, bits, t', more, c, q)
    {
      AllocSlots(lens, bits, t, nodes, c, p, q);
    }
  }

  // ---- Entering a symbol ------------------------------------------------------------------------

  /** A node's block strictly contains a code, so no node's block lies inside a single code. */
  lemma NoNodeInside(lens: seq<nat>, bits: nat, nodes: seq<Node>, c: nat, v: nat)
    requires bits < CODE_BIT && NodesOk(lens, bits, nodes) && v < |nodes| && Coded(lens, c)
    requires nodes[v].h + 1 <= CODE_BIT - lens[c]
    ensures Apart(lens, c, nodes[v].a, nodes[v].h + 1)
  {
    assert NodeOk(lens, bits, nodes, v);
    var s := nodes[v].sym;
    if !Apart(lens, c, nodes[v].a, nodes[v].h + 1) {
      MeetsAround(lens, c, nodes[v].a, nodes[v].h + 1);
      SizePositive(lens, s);
      Disjoint(lens, s, c);
    }
  }

  /** When p is the place of c's own code, every other empty place is apart from c. */
  lemma EmptyIsApart(lens: seq<nat>, bits: nat, t: Trie, nodes: seq<Node>, c: nat, p: Ptr, q: Ptr)
    requires Inserting(lens, bits, t, nodes, c, p)
    requires CODE_BIT - lens[c] == Exp(bits, |lens|, nodes, p)
    requires Slot(bits, |lens|, nodes, q) && q != p
    requires InRange(t, q) && Deref(t, q) < |lens|
    ensures Apart(lens, c, Base(bits, |lens|, nodes, q), Exp(bits, |lens|, nodes, q))
  {
    var a, m := Base(bits, |lens|, nodes, q), Exp(bits, |lens|, nodes, q);
    SlotAligned(lens, bits, nodes, q);
    SizePositive(lens, c);
    if m >= CODE_BIT - lens[c] {
      if !Apart(lens, c, a, m) {
        MeetsInside(lens, c, a, m);
        if m == CODE_BIT - lens[c] {
          SlotUnique(lens, bits, nodes, p, q);
        }
      }
    } else {
      NoNodeInside(lens, bits, nodes, c, q.v - |lens|);
    }
  }

  lemma WriteSlot(lens: seq<nat>, bits: nat, t: Trie, nodes: seq<Node>, c: nat, p: Ptr, q: Ptr)
    requires Inserting(lens, bits, t, nodes, c, p)
    requires CODE_BIT - lens[c] == Exp(bits, |lens|, nodes, p)
    requires InRange(t, p) && c < 0x1_0000
    requires Slot(bits, |lens|, nodes, q) && LongSlot(lens, bits, q)
    ensures SlotGood(lens, bits, Assign(t, p, c), nodes, c + 1, q)
  {
    if q != p {
      assert SlotGood(lens, bits, t, nodes, c, q);
      if Deref(t, q) == 0 {
        EmptyIsApart(lens, bits, t, nodes, c, p, q);
      }
    }
  }

  lemma WriteLinks(lens: seq<nat>, bits: nat, t: Trie, nodes: seq<Node>, c: nat, p: Ptr)
    requires Inserting(lens, bits, t, nodes, c, p)
    requires CODE_BIT - lens[c] == Exp(bits, |lens|, nodes, p)
    requires InRange(t, p) && c < 0x1_0000
    ensures Linked(lens, Assign(t, p, c), nodes)
  {
    forall v | 0 <= v < |nodes|
      ensures InRange(t, nodes[v].at) && nodes[v].at != p
    {
      assert NodeOk(lens, bits, nodes, v);
      if nodes[v].at == p {
        NoNodeInside(lens, bits, nodes, c, v);
        SizePositive(lens, c);
      }
    }
  }

  lemma StepWrite(lens: seq<nat>, bits: nat, t: Trie, nodes: seq<Node>, c: nat, p: Ptr)
    requires Inserting(lens, bits, t, nodes, c, p)
    requires CODE_BIT - lens[c] == Exp(bits, |lens|, nodes, p)
    requires InRange(t, p) && c < 0x1_0000
    ensures Built(lens, bits, Assign(t, p, c), nodes, c + 1)
  {
    WriteLinks(lens, bits, t, nodes, c, p);
    forall q | Slot(bits, |lens|, nodes, q) && LongSlot(lens, bits, q)
      ensures SlotGood(lens, bits, Assign(t, p, c), nodes, c + 1, q)
    {
      WriteSlot(lens, bits, t, nodes, c, p, q);
    }
    assert Assign(t, p, c).table == t.table;
  }

  // ---- Short codes and unused symbols -----------------------------------------------------------

  lemma FitsShort(lens: seq<nat>, bits: nat, t: Trie, nodes: seq<Node>, c: nat, q: Ptr)
    requires Built(lens, bits, t, nodes, c) && c < |lens| && lens[c] <= bits
    requires Slot(bits, |lens|, nodes, q) && LongSlot(lens, bits, q)
    ensures SlotGood(lens, bits, t, nodes, c + 1, q)
  {
    assert SlotGood(lens, bits, t, nodes, c, q);
    BlockInSpace(lens, bits, nodes, q);
    if Coded(lens, c) {
      ShortBelow(lens, bits, c);
    }
  }

  lemma StepUnused(lens: seq<nat>, bits: nat, t: Trie, nodes: seq<Node>, c: nat)
    requires Built(lens, bits, t, nodes, c) && c < |lens| && lens[c] == 0
    ensures Built(lens, bits, t, nodes, c + 1)
  {
    forall q | Slot(bits, |lens|, nodes, q) && LongSlot(lens, bits, q)
      ensures SlotGood(lens, bits, t, nodes, c + 1, q)
    {
      FitsShort(lens, bits, t, nodes, c, q);
    }
  }

  /** Filling the direct entries of a short code; they all lie below the long ones. */
  lemma StepShort(lens: seq<nat>, bits: nat, t: Trie, t': Trie, nodes: seq<Node>, c: nat)
    requires Built(lens, bits, t, nodes, c) && Coded(lens, c) && lens[c] <= bits
    requires |t'.table| == |t.table| && t'.left == t.left && t'.right == t.right
    requires forall i: nat :: i < Pow2(bits) ==>
      t'.table[i] == if Within(lens, c, EntryBase(bits, i)) then c else t.table[i]
    ensures Built(lens, bits, t', nodes, c + 1)
  {
    ShortBelow(lens, bits, c);
    forall q | Slot(bits, |lens|, nodes, q) && LongSlot(lens, bits, q)
      ensures SlotGood(lens, bits, t', nodes, c + 1, q)
    {
      FitsShort(lens, bits, t, nodes, c, q);
    }
    ShortEntries(lens, bits, t, t', c);
    forall v | 0 <= v < |nodes|
      ensures InRange(t', nodes[v].at) && Deref(t', nodes[v].at) == Deref(t, nodes[v].at)
    {
      assert NodeOk(lens, bits, nodes, v);
    }
  }

  lemma ShortEntries(lens: seq<nat>, bits: nat, t: Trie, t': Trie, c: nat)
    requires bits < CODE_BIT && |t.table| >= Pow2(bits) && Coded(lens, c)
    requires ShortsGood(lens, bits, t, c) && |t'.table| == |t.table|
    requires forall i: nat :: i < Pow2(bits) ==>
      t'.table[i] == if Within(lens, c, EntryBase(bits, i)) then c else t.table[i]
    ensures ShortsGood(lens, bits, t', c + 1)
  {
    forall i: nat, s: nat |
      i < Pow2(bits) && s < c + 1 && Coded(lens, s) && lens[s] <= bits && Within(lens, s, EntryBase(bits, i))
      ensures t'.table[i] == s
    {
      if s < c {
        Disjoint(lens, s, c);
        assert t.table[i] == s;
      }
    }
  }

  /** Before any symbol: no nodes, and the entries of the long codes are zero. */
  lemma StartEmpty(lens: seq<nat>, bits: nat, t: Trie)
    requires 1 <= bits < CODE_BIT && Sized(t, bits, |lens|) && |lens| <= |t.left|
    requires forall i: nat :: i < Pow2(bits) && EntryBase(bits, i) >= LongStart(lens, bits) ==> t.table[i] == 0
    ensures 0 < |lens| ==> Built(lens, bits, t, [], 0)
  {
    if 0 < |lens| {
      forall q | Slot(bits, |lens|, [], q) && LongSlot(lens, bits, q)
        ensures SlotGood(lens, bits, t, [], 0, q)
      {
      }
    }
  }

  // ---- The finished structure -------------------------------------------------------------------

  /** A window in the block of a good place is decoded by walking on from there. */
  lemma {:induction false} WalkFinds(lens: seq<nat>, bits: nat, t: Trie, nodes: seq<Node>, p: Ptr, w: nat)
    requires Complete(lens) && Built(lens, bits, t, nodes, |lens|) && w < CODE_SPACE
    requires Slot(bits, |lens|, nodes, p) && LongSlot(lens, bits, p) && InRange(t, p)
    requires Base(bits, |lens|, nodes, p) <= w < Base(bits, |lens|, nodes, p) + Pow2(Exp(bits, |lens|, nodes, p))
    ensures IsPrefix(lens, Walk(t, |lens|, Deref(t, p), Exp(bits, |lens|, nodes, p), w), w)
    decreases Exp(bits, |lens|, nodes, p)
  {
    assert SlotGood(lens, bits, t, nodes, |lens|, p);
    var x := Deref(t, p);
    if x >= |lens| {
      var v := nodes[x - |lens|];
      NodeBlock(lens, bits, nodes, x - |lens|);
      HalfBit(w, v.a, v.h);
      WalkFinds(lens, bits, t, nodes, if Bit(w, v.h) then InRight(x) else InLeft(x), w);
    } else {
      SymbolFinds(lens, x, Base(bits, |lens|, nodes, p), Exp(bits, |lens|, nodes, p), w);
    }
  }

  lemma SymbolFinds(lens: seq<nat>, x: nat, a: nat, m: nat, w: nat)
    requires Complete(lens) && x < |lens| && a <= w < a + Pow2(m) && w < CODE_SPACE
    requires Fits(lens, [], x, a, m, |lens|)
    ensures IsPrefix(lens, x, w)
  {
    if x != 0 {
      PrefixIsWithin(lens, x, w);
    } else {
      var s := SymbolAt(lens, w);
      PrefixIsWithin(lens, s, w);
    }
  }

  /** With every symbol entered, table and tree agree with the canonical code on every window. */
  lemma BuiltDecodes(lens: seq<nat>, bits: nat, t: Trie, nodes: seq<Node>)
    requires Complete(lens) && Built(lens, bits, t, nodes, |lens|)
    ensures Decodes(t, bits, lens)
  {
    forall w: nat | w < CODE_SPACE
      ensures IsPrefix(lens, Lookup(t, bits, |lens|, w), w)
    {
      TopBits(w, bits);
      Split(w, CODE_BIT - bits);
      var i := Shr(w, CODE_BIT - bits);
      if LongSlot(lens, bits, InTable(i)) {
        WalkFinds(lens, bits, t, nodes, InTable(i), w);
      } else {
        ShortFinds(lens, bits, i, w);
        assert t.table[i] == SymbolAt(lens, w);
      }
    }
  }

  /** Below the long codes a whole table entry belongs to one short code. */
  lemma ShortFinds(lens: seq<nat>, bits: nat, i: nat, w: nat)
    requires Complete(lens) && 1 <= bits < CODE_BIT && w < CODE_SPACE
    requires EntryBase(bits, i) <= w < EntryBase(bits, i) + Pow2(CODE_BIT - bits)
    requires EntryBase(bits, i) < LongStart(lens, bits)
    ensures var s := SymbolAt(lens, w);
      lens[s] <= bits && Within(lens, s, EntryBase(bits, i))
  {
    var s := SymbolAt(lens, w);
    PrefixIsWithin(lens, s, w);
    EntryAligned(bits, i);
    var b := CoverBelow(lens, EntryBase(bits, i), bits + 1);
    SizePositive(lens, b);
    MeetsAround(lens, b, EntryBase(bits, i), CODE_BIT - bits);
    PrefixIsWithin(lens, b, w);
    PrefixUnique(lens, s, b, w);
  }

  // ---- How many nodes ---------------------------------------------------------------------------

  /** The middle of a node's block is where some code starts. */
  lemma MiddleSymbol(lens: seq<nat>, bits: nat, nodes: seq<Node>, v: nat) returns (s: nat)
    requires Complete(lens) && bits < CODE_BIT && NodesOk(lens, bits, nodes) && v < |nodes|
    ensures Coded(lens, s) && Pos(lens, s) == nodes[v].a + Pow2(nodes[v].h)
  {
    var x := nodes[v];
    assert NodeOk(lens, bits, nodes, v);
    var mid := x.a + Pow2(x.h);
    s := SymbolAt(lens, mid);
    PrefixIsWithin(lens, s, mid);
    if CODE_BIT - lens[s] >= x.h + 1 {
      NoNodeInside(lens, bits, nodes, s, v);
    } else {
      HalfAligned(x.a, x.h + 1);
      MeetsInside(lens, s, mid, x.h);
    }
  }

  lemma MiddlesDiffer(lens: seq<nat>, bits: nat, nodes: seq<Node>, u: nat, v: nat)
    requires bits < CODE_BIT && NodesOk(lens, bits, nodes) && u < v < |nodes|
    ensures nodes[u].a + Pow2(nodes[u].h) != nodes[v].a + Pow2(nodes[v].h)
  {
    NodeBlock(lens, bits, nodes, u);
    NodeBlock(lens, bits, nodes, v);
    if nodes[u].h < nodes[v].h {
      MiddleLevels(nodes[u].a, nodes[u].h, nodes[v].a, nodes[v].h);
    } else if nodes[v].h < nodes[u].h {
      MiddleLevels(nodes[v].a, nodes[v].h, nodes[u].a, nodes[u].h);
    }
  }

  lemma {:induction false} MiddleLevels(a: nat, h: nat, b: nat, k: nat)
    requires Aligned(a, h + 1) && Aligned(b, k + 1) && h < k
    ensures a + Pow2(h) != b + Pow2(k)
  {
    if h > 0 {
      MiddleLevels(a / 2, h - 1, b / 2, k - 1);
    }
  }

  /** Distinct numbers below n are at most n many. */
  lemma {:induction false} Pigeonhole(xs: seq<nat>, n: nat)
    requires forall i :: 0 <= i < |xs| ==> xs[i] < n
    requires forall i, j :: 0 <= i < j < |xs| ==> xs[i] != xs[j]
    ensures |xs| <= n
    decreases n
  {
    if |xs| > 0 {
      assert xs[0] < n;
      if k :| 0 <= k < |xs| && xs[k] == n - 1 {
        Pigeonhole(xs[..k] + xs[k + 1..], n - 1);
      } else {
        Pigeonhole(xs, n - 1);
      }
    }
  }

  /** A complete code needs fewer nodes than it has symbols: MakeTable stays below 2 * NumOfChar - 1. */
  lemma NodeBound(lens: seq<nat>, bits: nat, nodes: seq<Node>)
    requires Complete(lens) && bits < CODE_BIT && NodesOk(lens, bits, nodes)
    ensures |nodes| + 1 <= |lens|
  {
    var zero := SymbolAt(lens, 0);
    PrefixIsWithin(lens, zero, 0);
    var mids := Middles(lens, bits, nodes, |nodes|);
    forall v | 0 <= v < |mids|
      ensures mids[v] != zero
    {
    }
    Pigeonhole(mids + [zero], |lens|);
  }

  lemma {:induction false} Middles(lens: seq<nat>, bits: nat, nodes: seq<Node>, k: nat) returns (mids: seq<nat>)
    requires Complete(lens) && bits < CODE_BIT && NodesOk(lens, bits, nodes) && k <= |nodes|
    ensures |mids| == k
    ensures forall v :: 0 <= v < k ==> Coded(lens, mids[v]) && Pos(lens, mids[v]) == nodes[v].a + Pow2(nodes[v].h)
    ensures forall u, v :: 0 <= u < v < k ==> mids[u] != mids[v]
  {
    if k == 0 {
      mids := [];
    } else {
      var front := Middles(lens, bits, nodes, k - 1);
      var s := MiddleSymbol(lens, bits, nodes, k - 1);
      mids := front + [s];
      forall u | 0 <= u < k - 1
        ensures mids[u] != s
      {
        MiddlesDiffer(lens, bits, nodes, u, k - 1);
      }
    }
  }
}
