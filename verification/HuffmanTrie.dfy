/** The lookup structure MakeTable builds: a direct table on the first TableBits bits of the window, whose long
    entries lead into a binary tree kept in two arrays. Every place that can hold a symbol or a tree node stands for
    an aligned block of 16-bit windows, and the whole correctness argument is about those blocks. */
module HuffmanTrie {
  import opened Words
  import opened CanonicalCode

  /** The source's `Pointer`: the address of a table entry or of one side of a tree node. */
  datatype Ptr = InTable(i: nat) | InLeft(v: nat) | InRight(v: nat)

  datatype Trie = Trie(table: seq<u16>, left: seq<u16>, right: seq<u16>)

  predicate InRange(t: Trie, p: Ptr) {
    match p
    case InTable(i) => i < |t.table|
    case InLeft(v) => v < |t.left|
    case InRight(v) => v < |t.right|
  }

  function Deref(t: Trie, p: Ptr): u16
    requires InRange(t, p)
  {
    match p
    case InTable(i) => t.table[i]
    case InLeft(v) => t.left[v]
    case InRight(v) => t.right[v]
  }

  function Assign(t: Trie, p: Ptr, x: u16): Trie
    requires InRange(t, p)
  {
    match p
    case InTable(i) => t.(table := t.table[i := x])
    case InLeft(v) => t.(left := t.left[v := x])
    case InRight(v) => t.(right := t.right[v := x])
  }

  // ---- Looking a window up ----------------------------------------------------------------------

  /** Follow the tree from entry x, which stands for a block of 2^m windows; n when the walk is lost. */
  function Walk(t: Trie, n: nat, x: nat, m: nat, w: nat): nat
    decreases m
  {
    if x < n then x
    else if m == 0 || x >= |t.left| || x >= |t.right| then n
    else Walk(t, n, if Bit(w, m - 1) then t.right[x] else t.left[x], m - 1, w)
  }

  /** What the table and the tree answer for the 16-bit window w. */
  function Lookup(t: Trie, bits: nat, n: nat, w: nat): nat
    requires bits <= CODE_BIT && |t.table| >= Pow2(bits) && w < CODE_SPACE
  {
    TopBits(w, bits);
    Walk(t, n, t.table[Shr(w, CODE_BIT - bits)], CODE_BIT - bits, w)
  }

  lemma TopBits(w: nat, bits: nat)
    requires bits <= CODE_BIT && w < CODE_SPACE
    ensures Shr(w, CODE_BIT - bits) < Pow2(bits)
  {
    Pow2Literals();
    ShrBelow(w, bits, CODE_BIT - bits);
  }

  /** The structure decodes the canonical code of lens: it agrees with the textbook on every window. */
  ghost predicate Decodes(t: Trie, bits: nat, lens: seq<nat>) {
    && bits <= CODE_BIT
    && |t.table| >= Pow2(bits)
    && forall w: nat :: w < CODE_SPACE ==> IsPrefix(lens, Lookup(t, bits, |lens|, w), w)
  }

  /** A lookup only reads tree nodes at or above n, so writes below n do not disturb it. */
  lemma {:induction false} WalkFrame(t: Trie, t': Trie, n: nat, x: nat, m: nat, w: nat)
    requires |t.left| == |t.right| == |t'.left| == |t'.right|
    requires forall v :: n <= v < |t.left| ==> t.left[v] == t'.left[v] && t.right[v] == t'.right[v]
    ensures Walk(t, n, x, m, w) == Walk(t', n, x, m, w)
    decreases m
  {
    if x >= n && m > 0 && x < |t.left| {
      WalkFrame(t, t', n, if Bit(w, m - 1) then t.right[x] else t.left[x], m - 1, w);
    }
  }

  lemma LookupFrame(t: Trie, t': Trie, bits: nat, n: nat, w: nat)
    requires bits <= CODE_BIT && |t.table| >= Pow2(bits) && w < CODE_SPACE && t.table == t'.table
    requires |t.left| == |t.right| == |t'.left| == |t'.right|
    requires forall v :: n <= v < |t.left| ==> t.left[v] == t'.left[v] && t.right[v] == t'.right[v]
    ensures Lookup(t, bits, n, w) == Lookup(t', bits, n, w)
  {
    TopBits(w, bits);
    WalkFrame(t, t', n, t.table[Shr(w, CODE_BIT - bits)], CODE_BIT - bits, w);
  }

  /** Building another table on smaller node numbers changes no lookup. */
  lemma DecodesFrame(t: Trie, t': Trie, bits: nat, lens: seq<nat>)
    requires Decodes(t, bits, lens) && t.table == t'.table
    requires |t.left| == |t.right| == |t'.left| == |t'.right|
    requires forall v :: |lens| <= v < |t.left| ==> t.left[v] == t'.left[v] && t.right[v] == t'.right[v]
    ensures Decodes(t', bits, lens)
  {
    forall w: nat | w < CODE_SPACE
      ensures IsPrefix(lens, Lookup(t', bits, |lens|, w), w)
    {
      assert IsPrefix(lens, Lookup(t, bits, |lens|, w), w);
      LookupFrame(t, t', bits, |lens|, w);
    }
  }

  // ---- Blocks -----------------------------------------------------------------------------------

  /** A tree node: it stands for the block of 2^(h+1) windows from a, hangs at the place at, and has the code of sym
      strictly inside its block. Each of its two sides stands for half the block. */
  datatype Node = Node(a: nat, h: nat, at: Ptr, sym: nat)

  /** The place p exists while the tree has these nodes (numbered from n). */
  predicate Slot(bits: nat, n: nat, nodes: seq<Node>, p: Ptr) {
    match p
    case InTable(i) => i < Pow2(bits)
    case InLeft(v) => n <= v < n + |nodes|
    case InRight(v) => n <= v < n + |nodes|
  }

  function Base(bits: nat, n: nat, nodes: seq<Node>, p: Ptr): nat
    requires bits <= CODE_BIT && Slot(bits, n, nodes, p)
  {
    match p
    case InTable(i) => EntryBase(bits, i)
    case InLeft(v) => nodes[v - n].a
    case InRight(v) => nodes[v - n].a + Pow2(nodes[v - n].h)
  }

  /** The first window that uses table entry i. */
  function EntryBase(bits: nat, i: nat): nat
    requires bits <= CODE_BIT
  {
    Scale(i, CODE_BIT - bits)
  }

  function Exp(bits: nat, n: nat, nodes: seq<Node>, p: Ptr): nat
    requires bits <= CODE_BIT && Slot(bits, n, nodes, p)
  {
    match p
    case InTable(_) => CODE_BIT - bits
    case InLeft(v) => nodes[v - n].h
    case InRight(v) => nodes[v - n].h
  }

  /** The code of s lies inside the block. */
  predicate Inside(lens: seq<nat>, s: nat, a: nat, m: nat)
    requires Coded(lens, s)
  {
    a <= Pos(lens, s) && Pos(lens, s) + Size(lens, s) <= a + Pow2(m)
  }

  predicate Apart(lens: seq<nat>, s: nat, a: nat, m: nat)
    requires Coded(lens, s)
  {
    Pos(lens, s) + Size(lens, s) <= a || a + Pow2(m) <= Pos(lens, s)
  }

  /** Where the codes too long for the direct table begin. */
  function LongStart(lens: seq<nat>, bits: nat): nat
    requires bits < CODE_BIT
  {
    Start(lens, bits + 1)
  }

  predicate LongSlot(lens: seq<nat>, bits: nat, p: Ptr)
    requires bits < CODE_BIT
  {
    p.InTable? ==> EntryBase(bits, p.i) >= LongStart(lens, bits)
  }

  ghost predicate NodeOk(lens: seq<nat>, bits: nat, nodes: seq<Node>, v: nat)
    requires bits < CODE_BIT && v < |nodes|
  {
    var x := nodes[v];
    && x.h < CODE_BIT - bits
    && Aligned(x.a, x.h + 1)
    && x.a >= LongStart(lens, bits)
    && x.a + Pow2(x.h + 1) <= CODE_SPACE
    && Coded(lens, x.sym) && Inside(lens, x.sym, x.a, x.h + 1) && CODE_BIT - lens[x.sym] <= x.h
    && Slot(bits, |lens|, nodes, x.at) && LongSlot(lens, bits, x.at)
    && Base(bits, |lens|, nodes, x.at) == x.a && Exp(bits, |lens|, nodes, x.at) == x.h + 1
  }

  ghost predicate Distinct(nodes: seq<Node>) {
    forall u, v :: 0 <= u < v < |nodes| ==> nodes[u].a != nodes[v].a || nodes[u].h != nodes[v].h
  }

  ghost predicate NodesOk(lens: seq<nat>, bits: nat, nodes: seq<Node>)
    requires bits < CODE_BIT
  {
    && Distinct(nodes)
    && forall v :: 0 <= v < |nodes| ==> NodeOk(lens, bits, nodes, v)
  }

  /** Entry x is right for the block when only the symbols below c have been entered. */
  ghost predicate Fits(lens: seq<nat>, nodes: seq<Node>, x: nat, a: nat, m: nat, c: nat) {
    if x >= |lens| then
      x - |lens| < |nodes| && nodes[x - |lens|].a == a && nodes[x - |lens|].h + 1 == m
    else if x != 0 then
      x < c && Coded(lens, x) && Pos(lens, x) <= a && a + Pow2(m) <= Pos(lens, x) + Size(lens, x)
    else
      forall s: nat :: 0 < s < c && Coded(lens, s) ==> Apart(lens, s, a, m)
  }

  predicate Sized(t: Trie, bits: nat, n: nat) {
    |t.table| >= Pow2(bits) && |t.left| == |t.right| && |t.left| >= 2 * n - 1
  }

  ghost predicate SlotGood(lens: seq<nat>, bits: nat, t: Trie, nodes: seq<Node>, c: nat, p: Ptr)
    requires bits < CODE_BIT && Slot(bits, |lens|, nodes, p)
  {
    InRange(t, p) && Fits(lens, nodes, Deref(t, p), Base(bits, |lens|, nodes, p), Exp(bits, |lens|, nodes, p), c)
  }

  ghost predicate SlotsGood(lens: seq<nat>, bits: nat, t: Trie, nodes: seq<Node>, c: nat)
    requires bits < CODE_BIT
  {
    forall p :: Slot(bits, |lens|, nodes, p) && LongSlot(lens, bits, p) ==> SlotGood(lens, bits, t, nodes, c, p)
  }

  /** Every node is referenced from the place it hangs at. */
  ghost predicate Linked(lens: seq<nat>, t: Trie, nodes: seq<Node>) {
    forall v :: 0 <= v < |nodes| ==> InRange(t, nodes[v].at) && Deref(t, nodes[v].at) == |lens| + v
  }

  /** The direct entries of the short codes entered so far. */
  ghost predicate ShortsGood(lens: seq<nat>, bits: nat, t: Trie, c: nat)
    requires bits < CODE_BIT && |t.table| >= Pow2(bits)
  {
    forall i: nat, s: nat ::
      (i < Pow2(bits) && s < c && Coded(lens, s) && lens[s] <= bits && Within(lens, s, EntryBase(bits, i)))
      ==> t.table[i] == s
  }

  /** The state of the structure once the symbols below c have been entered. */
  ghost predicate Built(lens: seq<nat>, bits: nat, t: Trie, nodes: seq<Node>, c: nat) {
    && 1 <= bits < CODE_BIT
    && Sized(t, bits, |lens|)
    && NodesOk(lens, bits, nodes)
    && |lens| + |nodes| <= |t.left|
    && Linked(lens, t, nodes)
    && SlotsGood(lens, bits, t, nodes, c)
    && ShortsGood(lens, bits, t, c)
  }

  // ---- Places and blocks ------------------------------------------------------------------------

  lemma EntryAligned(bits: nat, i: nat)
    requires bits <= CODE_BIT
    ensures Aligned(EntryBase(bits, i), CODE_BIT - bits)
  {
    ScaleAligned(i, CODE_BIT - bits);
  }

  lemma EntryMono(bits: nat, i: nat, j: nat)
    requires bits <= CODE_BIT && i < j
    ensures EntryBase(bits, i) + Pow2(CODE_BIT - bits) <= EntryBase(bits, j)
  {
    ScaleStrict(i, j, CODE_BIT - bits);
  }

  lemma NodeBlock(lens: seq<nat>, bits: nat, nodes: seq<Node>, v: nat)
    requires bits < CODE_BIT && NodesOk(lens, bits, nodes) && v < |nodes|
    ensures nodes[v].h < CODE_BIT - bits && Aligned(nodes[v].a, nodes[v].h + 1)
  {
    assert NodeOk(lens, bits, nodes, v);
  }

  lemma SlotAligned(lens: seq<nat>, bits: nat, nodes: seq<Node>, p: Ptr)
    requires bits < CODE_BIT && NodesOk(lens, bits, nodes) && Slot(bits, |lens|, nodes, p)
    ensures Aligned(Base(bits, |lens|, nodes, p), Exp(bits, |lens|, nodes, p))
    ensures Exp(bits, |lens|, nodes, p) <= CODE_BIT - bits
  {
    if p.InTable? {
      EntryAligned(bits, p.i);
    } else {
      NodeBlock(lens, bits, nodes, p.v - |lens|);
      HalfAligned(nodes[p.v - |lens|].a, nodes[p.v - |lens|].h + 1);
    }
  }

  lemma SidesApart(a: nat, b: nat, h: nat)
    requires Aligned(a, h + 1) && Aligned(b, h + 1) && a != b
    ensures a + Pow2(h) != b && a != b + Pow2(h)
  {
    if a < b {
      AlignedApart(a, b, h + 1);
    } else {
      AlignedApart(b, a, h + 1);
    }
  }

  lemma NodePlacesDiffer(lens: seq<nat>, bits: nat, nodes: seq<Node>, p: Ptr, q: Ptr)
    requires bits < CODE_BIT && NodesOk(lens, bits, nodes) && p != q && !p.InTable? && !q.InTable?
    requires Slot(bits, |lens|, nodes, p) && Slot(bits, |lens|, nodes, q)
    requires Exp(bits, |lens|, nodes, p) == Exp(bits, |lens|, nodes, q)
    ensures Base(bits, |lens|, nodes, p) != Base(bits, |lens|, nodes, q)
  {
    var u, v := p.v - |lens|, q.v - |lens|;
    NodeBlock(lens, bits, nodes, u);
    NodeBlock(lens, bits, nodes, v);
    if nodes[u].a != nodes[v].a {
      SidesApart(nodes[u].a, nodes[v].a, nodes[u].h);
    }
  }

  /** Different places stand for different blocks. */
  lemma SlotUnique(lens: seq<nat>, bits: nat, nodes: seq<Node>, p: Ptr, q: Ptr)
    requires bits < CODE_BIT && NodesOk(lens, bits, nodes) && p != q
    requires Slot(bits, |lens|, nodes, p) && Slot(bits, |lens|, nodes, q)
    ensures Base(bits, |lens|, nodes, p) != Base(bits, |lens|, nodes, q)
      || Exp(bits, |lens|, nodes, p) != Exp(bits, |lens|, nodes, q)
  {
    if p.InTable? && q.InTable? {
      if p.i < q.i {
        EntryMono(bits, p.i, q.i);
      } else {
        EntryMono(bits, q.i, p.i);
      }
    } else if p.InTable? {
      NodeBlock(lens, bits, nodes, q.v - |lens|);
    } else if q.InTable? {
      NodeBlock(lens, bits, nodes, p.v - |lens|);
    } else if Exp(bits, |lens|, nodes, p) == Exp(bits, |lens|, nodes, q) {
      NodePlacesDiffer(lens, bits, nodes, p, q);
    }
  }

  lemma CodeAligned(lens: seq<nat>, c: nat)
    requires Coded(lens, c)
    ensures Aligned(Pos(lens, c), CODE_BIT - lens[c])
  {
    PosFromStart(lens, c);
  }

  /** A code at least as long as the block is small lies inside it as soon as they meet. */
  lemma MeetsInside(lens: seq<nat>, c: nat, a: nat, m: nat)
    requires Coded(lens, c) && CODE_BIT - lens[c] <= m && Aligned(a, m)
    requires !Apart(lens, c, a, m)
    ensures Inside(lens, c, a, m)
  {
    CodeAligned(lens, c);
    Nested(Pos(lens, c), CODE_BIT - lens[c], a, m);
  }

  lemma MeetsAround(lens: seq<nat>, c: nat, a: nat, m: nat)
    requires Coded(lens, c) && m <= CODE_BIT - lens[c] && Aligned(a, m)
    requires !Apart(lens, c, a, m)
    ensures Pos(lens, c) <= a && a + Pow2(m) <= Pos(lens, c) + Size(lens, c)
  {
    CodeAligned(lens, c);
    Nested(a, m, Pos(lens, c), CODE_BIT - lens[c]);
  }
}
