/** Canonical prefix codes given by a vector of code lengths (section 19.2 of the UEFI Specification 2.10).
    This is the textbook definition; nothing here mentions tables or trees. */
module CanonicalCode {
  import opened Words

  /** The longest code, CODE_BIT in the source. */
  const CODE_BIT: nat := 16
  const CODE_SPACE: nat := 0x1_0000

  /** Symbol c has a code. Length zero means "not used". */
  predicate Coded(lens: seq<nat>, c: nat) {
    c < |lens| && 1 <= lens[c] <= CODE_BIT
  }

  predicate ValidLengths(lens: seq<nat>) {
    forall c :: 0 <= c < |lens| ==> lens[c] <= CODE_BIT
  }

  /** How many of the first c symbols have code length l. */
  function CountUpTo(lens: seq<nat>, l: nat, c: nat): (k: nat)
    requires c <= |lens|
    ensures k <= c
  {
    if c == 0 then 0 else CountUpTo(lens, l, c - 1) + (if lens[c - 1] == l then 1 else 0)
  }

  function Count(lens: seq<nat>, l: nat): nat {
    CountUpTo(lens, l, |lens|)
  }

  /** The numerically smallest code of length l. */
  function FirstCode(lens: seq<nat>, l: nat): nat {
    if l <= 1 then 0 else 2 * (FirstCode(lens, l - 1) + Count(lens, l - 1))
  }

  /** The code of symbol c: codes of one length are consecutive, in symbol order. */
  function CodeOf(lens: seq<nat>, c: nat): nat
    requires Coded(lens, c)
  {
    FirstCode(lens, lens[c]) + CountUpTo(lens, lens[c], c)
  }

  /** The Kraft sum of the first c symbols, in units of 2^-16. */
  function Kraft(lens: seq<nat>, c: nat): nat
    requires c <= |lens| && ValidLengths(lens)
  {
    if c == 0 then 0
    else Kraft(lens, c - 1) + (if lens[c - 1] == 0 then 0 else Pow2(CODE_BIT - lens[c - 1]))
  }

  /** The lengths leave no 16-bit string undecodable and none ambiguous. */
  predicate Complete(lens: seq<nat>) {
    ValidLengths(lens) && Kraft(lens, |lens|) == CODE_SPACE
  }

  /** The check MakeTable makes: Start[17] wraps to zero exactly when the Kraft sum is a multiple of 2^16. */
  predicate Accepted(lens: seq<nat>)
    requires ValidLengths(lens)
  {
    Kraft(lens, |lens|) % CODE_SPACE == 0
  }

  /** The code of c is the leading bits of the 16-bit window w. */
  predicate IsPrefix(lens: seq<nat>, c: nat, w: nat) {
    Coded(lens, c) && Shr(w, CODE_BIT - lens[c]) == CodeOf(lens, c)
  }

  // ---- Codes as intervals of 16-bit windows --------------------------------------------------

  function Size(lens: seq<nat>, c: nat): nat
    requires Coded(lens, c)
  {
    Pow2(CODE_BIT - lens[c])
  }

  function Pos(lens: seq<nat>, c: nat): nat
    requires Coded(lens, c)
  {
    Scale(CodeOf(lens, c), CODE_BIT - lens[c])
  }

  predicate Within(lens: seq<nat>, c: nat, w: nat)
    requires Coded(lens, c)
  {
    Pos(lens, c) <= w < Pos(lens, c) + Size(lens, c)
  }

  /** Where the codes of length l begin, counting only the first c symbols. */
  function StartUpTo(lens: seq<nat>, l: nat, c: nat): nat
    requires c <= |lens| && l <= CODE_BIT + 1
  {
    if l <= 1 then 0
    else StartUpTo(lens, l - 1, c) + Scale(CountUpTo(lens, l - 1, c), CODE_BIT - (l - 1))
  }

  function Start(lens: seq<nat>, l: nat): nat
    requires l <= CODE_BIT + 1
  {
    StartUpTo(lens, l, |lens|)
  }

  lemma PrefixIsWithin(lens: seq<nat>, c: nat, w: nat)
    requires Coded(lens, c)
    ensures IsPrefix(lens, c, w) <==> Within(lens, c, w)
  {
    var k, m := CodeOf(lens, c), CODE_BIT - lens[c];
    Split(w, m);
    if Within(lens, c, w) {
      Unsplit(k, w - Scale(k, m), m);
    }
  }

  lemma {:induction false} StartIsFirstCode(lens: seq<nat>, l: nat)
    requires 1 <= l <= CODE_BIT
    ensures Start(lens, l) == Scale(FirstCode(lens, l), CODE_BIT - l)
  {
    ScaleOne(CODE_BIT - l);
    if l > 1 {
      StartIsFirstCode(lens, l - 1);
      ScaleAdd(FirstCode(lens, l - 1), Count(lens, l - 1), CODE_BIT - (l - 1));
      ScaleScale(FirstCode(lens, l - 1) + Count(lens, l - 1), 1, CODE_BIT - l);
    }
  }

  /** The place of a code: its length class begins at Start, and it is the rank-th there. */
  lemma PosFromStart(lens: seq<nat>, c: nat)
    requires Coded(lens, c)
    ensures Pos(lens, c) == Start(lens, lens[c]) + Scale(CountUpTo(lens, lens[c], c), CODE_BIT - lens[c])
    ensures Aligned(Pos(lens, c), CODE_BIT - lens[c])
  {
    StartIsFirstCode(lens, lens[c]);
    ScaleAdd(FirstCode(lens, lens[c]), CountUpTo(lens, lens[c], c), CODE_BIT - lens[c]);
    ScaleAligned(CodeOf(lens, c), CODE_BIT - lens[c]);
  }

  lemma {:induction false} StartMono(lens: seq<nat>, l: nat, k: nat)
    requires l <= k <= CODE_BIT + 1
    ensures Start(lens, l) <= Start(lens, k)
    decreases k
  {
    if l < k {
      StartMono(lens, l, k - 1);
    }
  }

  lemma {:induction false} CountMono(lens: seq<nat>, l: nat, c: nat, d: nat)
    requires c <= d <= |lens|
    ensures CountUpTo(lens, l, c) <= CountUpTo(lens, l, d)
    decreases d
  {
    if c < d {
      CountMono(lens, l, c, d - 1);
    }
  }

  /** Adding symbol c to the count moves every later length class up by the size of its code. */
  lemma {:induction false} StartAdds(lens: seq<nat>, l: nat, c: nat)
    requires c < |lens| && l <= CODE_BIT + 1 && lens[c] <= CODE_BIT
    ensures StartUpTo(lens, l, c + 1) ==
      StartUpTo(lens, l, c) + (if 0 < lens[c] < l then Pow2(CODE_BIT - lens[c]) else 0)
    decreases l
  {
    if l > 1 {
      StartAdds(lens, l - 1, c);
      if lens[c] == l - 1 {
        ScaleNext(CountUpTo(lens, l - 1, c), CODE_BIT - (l - 1));
      }
    }
  }

  lemma {:induction false} StartOfNone(lens: seq<nat>, l: nat)
    requires l <= CODE_BIT + 1
    ensures StartUpTo(lens, l, 0) == 0
  {
    if l > 1 {
      ScaleOne(CODE_BIT - (l - 1));
      StartOfNone(lens, l - 1);
    }
  }

  /** The running start the source computes ends at the Kraft sum. */
  lemma {:induction false} StartIsKraft(lens: seq<nat>, c: nat)
    requires c <= |lens| && ValidLengths(lens)
    ensures StartUpTo(lens, CODE_BIT + 1, c) == Kraft(lens, c)
  {
    if c == 0 {
      StartOfNone(lens, CODE_BIT + 1);
    } else {
      StartIsKraft(lens, c - 1);
      StartAdds(lens, CODE_BIT + 1, c - 1);
    }
  }

  /** A code lies inside its length class. */
  lemma InsideClass(lens: seq<nat>, c: nat)
    requires Coded(lens, c)
    ensures Start(lens, lens[c]) <= Pos(lens, c)
    ensures Pos(lens, c) + Size(lens, c) <= Start(lens, lens[c] + 1)
  {
    PosFromStart(lens, c);
    var l := lens[c];
    CountMono(lens, l, c + 1, |lens|);
    ScaleStrict(CountUpTo(lens, l, c), Count(lens, l), CODE_BIT - l);
  }

  lemma InsideSpace(lens: seq<nat>, c: nat)
    requires Complete(lens) && Coded(lens, c)
    ensures Pos(lens, c) + Size(lens, c) <= CODE_SPACE
  {
    InsideClass(lens, c);
    StartMono(lens, lens[c] + 1, CODE_BIT + 1);
    StartIsKraft(lens, |lens|);
  }

  /** No two symbols share a window: the code is prefix free. */
  lemma Disjoint(lens: seq<nat>, c: nat, d: nat)
    requires Coded(lens, c) && Coded(lens, d) && c != d
    ensures Pos(lens, c) + Size(lens, c) <= Pos(lens, d) || Pos(lens, d) + Size(lens, d) <= Pos(lens, c)
  {
    if lens[c] < lens[d] {
      InsideClass(lens, c);
      InsideClass(lens, d);
      StartMono(lens, lens[c] + 1, lens[d]);
    } else if lens[d] < lens[c] {
      InsideClass(lens, c);
      InsideClass(lens, d);
      StartMono(lens, lens[d] + 1, lens[c]);
    } else if c < d {
      SameClass(lens, c, d);
    } else {
      SameClass(lens, d, c);
    }
  }

  lemma SameClass(lens: seq<nat>, c: nat, d: nat)
    requires Coded(lens, c) && Coded(lens, d) && c < d && lens[c] == lens[d]
    ensures Pos(lens, c) + Size(lens, c) <= Pos(lens, d)
  {
    PosFromStart(lens, c);
    PosFromStart(lens, d);
    var l := lens[c];
    CountMono(lens, l, c + 1, d);
    ScaleStrict(CountUpTo(lens, l, c), CountUpTo(lens, l, d), CODE_BIT - l);
  }

  /** Shorter codes first, and codes of one length in symbol order: followed by zeros to 16 bits, the code of the first
      ends before that of the second begins. */
  lemma CodeOrder(lens: seq<nat>, c: nat, d: nat)
    requires Coded(lens, c) && Coded(lens, d) && (lens[c] < lens[d] || (lens[c] == lens[d] && c < d))
    ensures Scale(CodeOf(lens, c) + 1, 16 - lens[c]) <= Scale(CodeOf(lens, d), 16 - lens[d])
  {
    ScaleNext(CodeOf(lens, c), 16 - lens[c]);
    if lens[c] < lens[d] {
      InsideClass(lens, c);
      InsideClass(lens, d);
      StartMono(lens, lens[c] + 1, lens[d]);
    } else {
      SameClass(lens, c, d);
    }
  }

  /** The q-th symbol of length l exists when there are more than q of them. */
  lemma {:induction false} NthOfLength(lens: seq<nat>, l: nat, q: nat, c: nat) returns (s: nat)
    requires c <= |lens| && q < CountUpTo(lens, l, c)
    ensures s < c && lens[s] == l && CountUpTo(lens, l, s) == q
  {
    if CountUpTo(lens, l, c - 1) > q {
      s := NthOfLength(lens, l, q, c - 1);
    } else {
      s := c - 1;
    }
  }

  /** Every window below the start of a length class begins with a shorter code. */
  lemma {:induction false} CoverBelow(lens: seq<nat>, w: nat, l: nat) returns (s: nat)
    requires 1 <= l <= CODE_BIT + 1 && w < Start(lens, l)
    ensures Coded(lens, s) && lens[s] < l && Within(lens, s, w)
    decreases l
  {
    if w < Start(lens, l - 1) {
      s := CoverBelow(lens, w, l - 1);
    } else {
      var x, m := w - Start(lens, l - 1), CODE_BIT - (l - 1);
      ShrUnits(x, Count(lens, l - 1), m);
      s := NthOfLength(lens, l - 1, Shr(x, m), |lens|);
      PosFromStart(lens, s);
    }
  }

  // ---- The decoder's reference ----------------------------------------------------------------

  /** Exactly one symbol's code is a prefix of the window: at most one. */
  lemma PrefixUnique(lens: seq<nat>, c: nat, d: nat, w: nat)
    requires IsPrefix(lens, c, w) && IsPrefix(lens, d, w)
    ensures c == d
  {
    PrefixIsWithin(lens, c, w);
    PrefixIsWithin(lens, d, w);
    if c != d {
      Disjoint(lens, c, d);
    }
  }

  /** Exactly one symbol's code is a prefix of the window: at least one. */
  lemma PrefixExists(lens: seq<nat>, w: nat)
    requires Complete(lens) && w < CODE_SPACE
    ensures exists c :: IsPrefix(lens, c, w)
  {
    StartIsKraft(lens, |lens|);
    var s := CoverBelow(lens, w, CODE_BIT + 1);
    PrefixIsWithin(lens, s, w);
  }

  /** The symbol whose code the window begins with. */
  ghost function SymbolAt(lens: seq<nat>, w: nat): (c: nat)
    requires Complete(lens) && w < CODE_SPACE
    ensures IsPrefix(lens, c, w)
  {
    PrefixExists(lens, w);
    var c :| IsPrefix(lens, c, w);
    c
  }
}
