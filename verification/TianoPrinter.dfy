/** How the format is written (section 19.2 of the UEFI Specification 2.10), and that reading undoes writing. The
    repository has no compressor, so the printer covers every choice a compressor may make: how many lengths to print,
    how to cut zero runs, which codes to use, where blocks end. */
module TianoPrinter {
  import opened Words
  import opened BitStream
  import opened CanonicalCode
  import opened TianoFormat

  // ---- Symbols ----------------------------------------------------------------------------------

  predicate Encodable(code: Code, s: nat) {
    match code
    case Single(only) => s == only
    case Canonical(lens) => Coded(lens, s)
  }

  function CodeBits(code: Code, s: nat): seq<bool>
    requires Encodable(code, s)
  {
    match code
    case Single(_) => []
    case Canonical(lens) => Binary(CodeOf(lens, s), lens[s])
  }

  /** A code fits in its length. */
  lemma CodeFits(lens: seq<nat>, s: nat)
    requires Complete(lens) && Coded(lens, s)
    ensures CodeOf(lens, s) < Pow2(lens[s])
  {
    InsideSpace(lens, s);
    var m := CODE_BIT - lens[s];
    ScalePow2(lens[s], m);
    Pow2Literals();
    if CodeOf(lens, s) >= Pow2(lens[s]) {
      ScaleMono(Pow2(lens[s]), CodeOf(lens, s), m);
    }
  }

  lemma SymbolRoundTrip(src: seq<u8>, pos: nat, code: Code, n: nat, s: nat)
    requires CodeOk(code, n) && Encodable(code, s) && Holds(src, pos, CodeBits(code, s))
    ensures ReadSymbol(src, pos, code, n) == (s, pos + |CodeBits(code, s)|)
  {
    if code.Canonical? {
      var lens := code.lens;
      CodeFits(lens, s);
      ReadBinary(src, pos, CodeOf(lens, s), lens[s]);
      WindowShr(src, pos, lens[s], CODE_BIT - lens[s]);
      PrefixUnique(lens, s, ReadSymbol(src, pos, code, n).0, Window(src, pos, CODE_BIT));
    }
  }

  // ---- Lengths of the Extra Set and the Position Set --------------------------------------------

  function OnesThenZero(k: nat): (bits: seq<bool>)
    ensures |bits| == k + 1
  {
    if k == 0 then [false] else [true] + OnesThenZero(k - 1)
  }

  function PrintLength(l: nat): seq<bool> {
    if l < 7 then Binary(l, 3) else Binary(7, 3) + OnesThenZero(l - 7)
  }

  lemma {:induction false} OnesRoundTrip(src: seq<u8>, p: int, k: nat, limit: nat)
    requires Holds(src, p, OnesThenZero(k)) && k < limit
    ensures Ones(src, p, limit) == k
    decreases k
  {
    var bits := OnesThenZero(k);
    assert StreamBit(src, p + 0) == bits[0];
    if k > 0 {
      HoldsSplit(src, p, [true], OnesThenZero(k - 1));
      OnesRoundTrip(src, p + 1, k - 1, limit - 1);
    }
  }

  lemma ShortLengthRoundTrip(src: seq<u8>, pos: nat, l: nat)
    requires l < 7 && Holds(src, pos, Binary(l, 3))
    ensures ReadLength(src, pos) == Got(l, pos + 3)
  {
    assert Pow2(3) == 8;
    ReadBinary(src, pos, l, 3);
  }

  lemma LongLengthRoundTrip(src: seq<u8>, pos: nat, k: nat)
    requires k < 10 && Holds(src, pos, Binary(7, 3)) && Holds(src, pos + 3, OnesThenZero(k))
    ensures ReadLength(src, pos) == Got(7 + k, pos + 4 + k)
  {
    assert Pow2(3) == 8;
    ReadBinary(src, pos, 7, 3);
    OnesRoundTrip(src, pos + 3, k, 10);
  }

  lemma LengthRoundTrip(src: seq<u8>, pos: nat, l: nat)
    requires l <= CODE_BIT && Holds(src, pos, PrintLength(l))
    ensures ReadLength(src, pos) == Got(l, pos + |PrintLength(l)|)
  {
    if l < 7 {
      ShortLengthRoundTrip(src, pos, l);
    } else {
      HoldsSplit(src, pos, Binary(7, 3), OnesThenZero(l - 7));
      LongLengthRoundTrip(src, pos, l - 7);
    }
  }

  /** Length i, and at the special index a two-bit count of lengths left out after it because they are zero. */
  function PrintNext(l: nat, atSpecial: bool, skip: nat): seq<bool> {
    if atSpecial then PrintLength(l) + Binary(skip, 2) else PrintLength(l)
  }

  function Next(i: nat, special: nat, skip: nat): nat {
    if i + 1 == special then i + 1 + skip else i + 1
  }

  /** Lengths i, i+1, ... up to n. */
  function PrintLengths(lens: seq<nat>, i: nat, n: nat, special: nat, skip: nat): seq<bool>
    requires n <= |lens|
    decreases if i < n then n - i else 0
  {
    if i >= n then []
    else PrintNext(lens[i], i + 1 == special, skip) + PrintLengths(lens, Next(i, special, skip), n, special, skip)
  }

  /** The lengths left out are zero. */
  predicate SkipOk(lens: seq<nat>, n: nat, special: nat, skip: nat) {
    && skip <= 3
    && (special <= n ==> special + skip <= |lens| && forall j :: special <= j < special + skip ==> lens[j] == 0)
  }

  lemma NextRoundTrip(src: seq<u8>, pos: nat, l: nat, special: nat, skip: nat, acc: seq<nat>)
    requires l <= CODE_BIT && skip <= 3 && Holds(src, pos, PrintNext(l, |acc| + 1 == special, skip))
    ensures PTItem(src, pos, special, acc) ==
      Got(if |acc| + 1 == special then acc + [l] + Zeros(skip) else acc + [l],
          pos + |PrintNext(l, |acc| + 1 == special, skip)|)
  {
    if |acc| + 1 == special {
      HoldsSplit(src, pos, PrintLength(l), Binary(skip, 2));
      assert Pow2(2) == 4;
      ReadBinary(src, pos + |PrintLength(l)|, skip, 2);
    }
    LengthRoundTrip(src, pos, l);
  }

  /** The prefix of lens grows by what was printed and what was left out. */
  lemma PrefixGrows(lens: seq<nat>, i: nat, n: nat, special: nat, skip: nat)
    requires i < n <= |lens| && SkipOk(lens, n, special, skip)
    ensures Next(i, special, skip) <= |lens|
    ensures lens[..Next(i, special, skip)] ==
      if i + 1 == special then lens[..i] + [lens[i]] + Zeros(skip) else lens[..i] + [lens[i]]
  {
  }

  /** One printed length moves the reader on by what was printed for it. */
  lemma LengthsOneStep(src: seq<u8>, pos: nat, lens: seq<nat>, i: nat, n: nat, special: nat, skip: nat)
    requires ValidLengths(lens) && i < n <= |lens| && SkipOk(lens, n, special, skip)
    requires Holds(src, pos, PrintNext(lens[i], i + 1 == special, skip))
    ensures Next(i, special, skip) <= |lens|
    ensures ReadLengths(src, pos, n, special, lens[..i]) ==
      ReadLengths(src, pos + |PrintNext(lens[i], i + 1 == special, skip)|, n, special, lens[..Next(i, special, skip)])
  {
    NextRoundTrip(src, pos, lens[i], special, skip, lens[..i]);
    PrefixGrows(lens, i, n, special, skip);
  }

  /** The reader took the prefix value of lens, at least n long, and stopped at pos. */
  predicate TookPrefix(r: Read<seq<nat>>, lens: seq<nat>, n: nat, pos: nat) {
    r.Got? && n <= |r.value| <= |lens| && r.value == lens[..|r.value|] && r.pos == pos
  }

  lemma {:induction false} LengthsRoundTrip(src: seq<u8>, pos: nat, lens: seq<nat>, i: nat, n: nat, special: nat,
                                            skip: nat)
    requires ValidLengths(lens) && n <= |lens| && i <= |lens| && SkipOk(lens, n, special, skip)
    requires Holds(src, pos, PrintLengths(lens, i, n, special, skip))
    ensures TookPrefix(ReadLengths(src, pos, n, special, lens[..i]), lens, n,
                       pos + |PrintLengths(lens, i, n, special, skip)|)
    decreases if i < n then n - i else 0
  {
    hide PrintNext, Holds, SkipOk, ValidLengths;
    if i < n {
      var first, k := PrintNext(lens[i], i + 1 == special, skip), Next(i, special, skip);
      HoldsSplit(src, pos, first, PrintLengths(lens, k, n, special, skip));
      LengthsOneStep(src, pos, lens, i, n, special, skip);
      LengthsRoundTrip(src, pos + |first|, lens, k, n, special, skip);
    }
  }

  /** A printed code: one symbol, or the first n lengths of a complete code. */
  datatype PTPrint = PTOne(sym: nat) | PTMany(lens: seq<nat>, n: nat, skip: nat)

  ghost predicate PTOk(h: PTPrint, nn: nat, nbit: nat, special: nat) {
    match h
    case PTOne(s) => s < nn && s < Pow2(nbit)
    case PTMany(lens, n, skip) =>
      && |lens| == nn && Complete(lens) && 1 <= n <= nn && n < Pow2(nbit) && SkipOk(lens, n, special, skip)
      && forall j :: n <= j < nn ==> lens[j] == 0
  }

  function PTCode(h: PTPrint): Code {
    match h
    case PTOne(s) => Single(s)
    case PTMany(lens, _, _) => Canonical(lens)
  }

  function PrintPT(h: PTPrint, nbit: nat, special: nat): seq<bool>
    requires h.PTMany? ==> h.n <= |h.lens|
  {
    match h
    case PTOne(s) => Binary(0, nbit) + Binary(s, nbit)
    case PTMany(lens, n, skip) => Binary(n, nbit) + PrintLengths(lens, 0, n, special, skip)
  }

  lemma FitPrefix(acc: seq<nat>, lens: seq<nat>, n: nat)
    requires acc <= lens && |lens| == n && forall j :: |acc| <= j < n ==> lens[j] == 0
    ensures Fit(acc, n) == lens
  {
  }

  lemma CompleteValid(lens: seq<nat>)
    requires Complete(lens)
    ensures ValidLengths(lens) && Kraft(lens, |lens|) == CODE_SPACE
  {
  }

  lemma PTManyRoundTrip(src: seq<u8>, pos: nat, lens: seq<nat>, n: nat, skip: nat, nbit: nat, special: nat)
    requires PTOk(PTMany(lens, n, skip), |lens|, nbit, special)
    requires Window(src, pos, nbit) == n && Holds(src, pos + nbit, PrintLengths(lens, 0, n, special, skip))
    ensures ReadPTCode(src, pos, |lens|, nbit, special) ==
      Got(Canonical(lens), pos + nbit + |PrintLengths(lens, 0, n, special, skip)|)
  {
    hide Holds, PrintLengths, ReadLengths, Complete, Window, Fit, SkipOk;
    assert lens[..0] == [];
    CompleteValid(lens);
    LengthsRoundTrip(src, pos + nbit, lens, 0, n, special, skip);
    var r := ReadLengths(src, pos + nbit, n, special, []);
    FitPrefix(r.value, lens, |lens|);
  }

  lemma PTRoundTrip(src: seq<u8>, pos: nat, h: PTPrint, nn: nat, nbit: nat, special: nat)
    requires PTOk(h, nn, nbit, special) && Holds(src, pos, PrintPT(h, nbit, special))
    ensures ReadPTCode(src, pos, nn, nbit, special) == Got(PTCode(h), pos + |PrintPT(h, nbit, special)|)
  {
    match h
    case PTOne(s) =>
      HoldsSplit(src, pos, Binary(0, nbit), Binary(s, nbit));
      ReadBinary(src, pos, 0, nbit);
      ReadBinary(src, pos + nbit, s, nbit);
    case PTMany(lens, n, skip) =>
      HoldsSplit(src, pos, Binary(n, nbit), PrintLengths(lens, 0, n, special, skip));
      ReadBinary(src, pos, n, nbit);
      PTManyRoundTrip(src, pos, lens, n, skip, nbit, special);
  }

  // ---- Lengths of the Char&Len Set --------------------------------------------------------------

  /** One zero, a run of 3..18 zeros, a run of 20..531 zeros, or a length. */
  datatype Item = Zero | ShortRun(k: nat) | LongRun(k: nat) | Length(l: nat)

  predicate ItemOk(x: Item) {
    match x
    case Zero => true
    case ShortRun(k) => 3 <= k <= 18
    case LongRun(k) => 20 <= k <= 531
    case Length(l) => 1 <= l <= 16
  }

  function ItemSymbol(x: Item): nat {
    match x
    case Zero => 0
    case ShortRun(_) => 1
    case LongRun(_) => 2
    case Length(l) => l + 2
  }

  function ItemLengths(x: Item): seq<nat> {
    match x
    case Zero => Zeros(1)
    case ShortRun(k) => Zeros(k)
    case LongRun(k) => Zeros(k)
    case Length(l) => [l]
  }

  function ItemExtra(x: Item): seq<bool>
    requires ItemOk(x)
  {
    match x
    case Zero => []
    case ShortRun(k) => Binary(k - 3, 4)
    case LongRun(k) => Binary(k - 20, 9)
    case Length(_) => []
  }

  predicate ItemsOk(extra: Code, items: seq<Item>) {
    items == [] || (ItemOk(items[0]) && Encodable(extra, ItemSymbol(items[0])) && ItemsOk(extra, items[1..]))
  }

  function PrintItem(extra: Code, x: Item): seq<bool>
    requires ItemOk(x) && Encodable(extra, ItemSymbol(x))
  {
    CodeBits(extra, ItemSymbol(x)) + ItemExtra(x)
  }

  function PrintItems(extra: Code, items: seq<Item>): seq<bool>
    requires ItemsOk(extra, items)
  {
    if items == [] then [] else PrintItem(extra, items[0]) + PrintItems(extra, items[1..])
  }

  function AllLengths(items: seq<Item>): seq<nat> {
    if items == [] then [] else ItemLengths(items[0]) + AllLengths(items[1..])
  }

  lemma RunRoundTrip(src: seq<u8>, pos: nat, x: Item)
    requires ItemOk(x) && !x.Length? && Holds(src, pos, ItemExtra(x))
    ensures ZeroRun(src, pos, ItemSymbol(x)) == (|ItemLengths(x)|, pos + |ItemExtra(x)|)
  {
    assert Pow2(4) == 16 && Pow2(9) == 512;
    match x
    case Zero =>
    case ShortRun(k) => ReadBinary(src, pos, k - 3, 4);
    case LongRun(k) => ReadBinary(src, pos, k - 20, 9);
    case Length(_) =>
  }

  lemma ItemRoundTrip(src: seq<u8>, pos: nat, extra: Code, x: Item, acc: seq<nat>)
    requires CodeOk(extra, NT) && ItemOk(x) && Encodable(extra, ItemSymbol(x)) && Holds(src, pos, PrintItem(extra, x))
    requires |acc| + |ItemLengths(x)| <= NC
    ensures CItem(src, pos, extra, acc) == Got(acc + ItemLengths(x), pos + |PrintItem(extra, x)|)
  {
    hide Holds, CodeBits, ReadSymbol, ZeroRun, CodeOk, Encodable;
    var code := CodeBits(extra, ItemSymbol(x));
    HoldsSplit(src, pos, code, ItemExtra(x));
    SymbolRoundTrip(src, pos, extra, NT, ItemSymbol(x));
    if !x.Length? {
      RunRoundTrip(src, pos + |code|, x);
      assert ItemLengths(x) == Zeros(|ItemLengths(x)|);
    }
  }

  lemma Assoc<T>(a: seq<T>, b: seq<T>, c: seq<T>)
    ensures (a + b) + c == a + (b + c)
  {
  }

  lemma ItemsOneStep(src: seq<u8>, pos: nat, extra: Code, x: Item, acc: seq<nat>, number: nat)
    requires CodeOk(extra, NT) && ItemOk(x) && Encodable(extra, ItemSymbol(x)) && Holds(src, pos, PrintItem(extra, x))
    requires |acc| + |ItemLengths(x)| <= number <= NC
    ensures ReadCLengths(src, pos, number, extra, acc) ==
      ReadCLengths(src, pos + |PrintItem(extra, x)|, number, extra, acc + ItemLengths(x))
  {
    assert |ItemLengths(x)| > 0;
    ItemRoundTrip(src, pos, extra, x, acc);
  }

  lemma {:induction false} ItemsRoundTrip(src: seq<u8>, pos: nat, extra: Code, items: seq<Item>, acc: seq<nat>,
                                          number: nat)
    requires CodeOk(extra, NT) && ItemsOk(extra, items) && Holds(src, pos, PrintItems(extra, items))
    requires number == |acc| + |AllLengths(items)| && number <= NC
    ensures ReadCLengths(src, pos, number, extra, acc) == Got(acc + AllLengths(items), pos + |PrintItems(extra, items)|)
    decreases |items|
  {
    hide Holds, CItem, ItemLengths, PrintItem, CodeOk;
    if items == [] {
      assert acc + AllLengths(items) == acc;
    } else {
      var x, rest := items[0], items[1..];
      HoldsSplit(src, pos, PrintItem(extra, x), PrintItems(extra, rest));
      ItemsOneStep(src, pos, extra, x, acc, number);
      Assoc(acc, ItemLengths(x), AllLengths(rest));
      ItemsRoundTrip(src, pos + |PrintItem(extra, x)|, extra, rest, acc + ItemLengths(x), number);
    }
  }

  datatype CPrint = COne(sym: nat) | CMany(lens: seq<nat>, items: seq<Item>)

  ghost predicate COk(h: CPrint, extra: Code) {
    match h
    case COne(s) => s < 510
    case CMany(lens, items) =>
      && |lens| == 510 && Complete(lens) && ItemsOk(extra, items)
      && 1 <= |AllLengths(items)| <= 510 && AllLengths(items) <= lens
      && forall j :: |AllLengths(items)| <= j < 510 ==> lens[j] == 0
  }

  function CCode(h: CPrint): Code {
    match h
    case COne(s) => Single(s)
    case CMany(lens, _) => Canonical(lens)
  }

  function PrintC(h: CPrint, extra: Code): seq<bool>
    requires h.CMany? ==> ItemsOk(extra, h.items)
  {
    match h
    case COne(s) => Binary(0, 9) + Binary(s, 9)
    case CMany(_, items) => Binary(|AllLengths(items)|, 9) + PrintItems(extra, items)
  }

  lemma CManyRoundTrip(src: seq<u8>, pos: nat, lens: seq<nat>, items: seq<Item>, extra: Code)
    requires CodeOk(extra, NT) && COk(CMany(lens, items), extra)
    requires Window(src, pos, 9) == |AllLengths(items)| && Holds(src, pos + 9, PrintItems(extra, items))
    ensures ReadCCode(src, pos, extra) == Got(Canonical(lens), pos + 9 + |PrintItems(extra, items)|)
  {
    hide Holds, ItemsOk, PrintItems, ReadCLengths, Complete, CodeOk, Window, Fit, AllLengths;
    ItemsRoundTrip(src, pos + 9, extra, items, [], |AllLengths(items)|);
    assert [] + AllLengths(items) == AllLengths(items);
    FitPrefix(AllLengths(items), lens, NC);
  }

  lemma CRoundTrip(src: seq<u8>, pos: nat, h: CPrint, extra: Code)
    requires CodeOk(extra, NT) && COk(h, extra) && Holds(src, pos, PrintC(h, extra))
    ensures ReadCCode(src, pos, extra) == Got(CCode(h), pos + |PrintC(h, extra)|)
  {
    assert Pow2(9) == 512;
    hide Holds, ItemsOk, PrintItems, ReadCLengths, Complete, CodeOk, Pow2;
    match h
    case COne(s) =>
      HoldsSplit(src, pos, Binary(0, 9), Binary(s, 9));
      ReadBinary(src, pos, 0, 9);
      ReadBinary(src, pos + 9, s, 9);
    case CMany(lens, items) =>
      var number := |AllLengths(items)|;
      HoldsSplit(src, pos, Binary(number, 9), PrintItems(extra, items));
      ReadBinary(src, pos, number, 9);
      CManyRoundTrip(src, pos, lens, items, extra);
  }
}
