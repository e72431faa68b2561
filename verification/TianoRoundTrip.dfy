/** Blocks of literals and matches, what they expand to, how they are printed, and the round trip. */
module TianoRoundTrip {
  import opened Words
  import opened BitStream
  import opened CanonicalCode
  import opened TianoFormat
  import opened TianoPrinter

  /** A byte, or the repetition of len bytes from dist bytes back. */
  datatype Token = Literal(b: u8) | Match(len: nat, dist: nat)

  /** The bytes a match stands for: the last dist bytes, over and over. */
  function Repeated(out: seq<u8>, dist: nat, len: nat): (bytes: seq<u8>)
    requires 1 <= dist <= |out|
    ensures |bytes| == len
  {
    seq(len, i requires 0 <= i < len => out[|out| - dist + i % dist])
  }

  predicate TokenOk(tok: Token, out: seq<u8>) {
    tok.Match? ==> 3 <= tok.len <= 256 && 1 <= tok.dist <= |out|
  }

  function Apply(tok: Token, out: seq<u8>): (more: seq<u8>)
    requires TokenOk(tok, out)
    ensures out <= more && |out| < |more|
  {
    match tok
    case Literal(b) => out + [b]
    case Match(len, dist) => out + Repeated(out, dist, len)
  }

  // ---- Copying byte by byte is the repetition ---------------------------------------------------

  lemma ModStep(i: nat, d: nat)
    requires d > 0
    ensures (i + d) % d == i % d
  {
    var q, r := i / d, i % d;
    assert i == q * d + r;
    ModUnique(i + d, d, q + 1, r);
  }

  lemma ModUnique(x: int, d: int, q: int, r: int)
    requires 0 <= r < d && x == q * d + r
    ensures x % d == r
  {
    DivIs(x, d, q, r);
  }

  lemma ModSmall(i: nat, d: nat)
    requires i < d
    ensures i % d == i
  {
  }

  /** After j bytes of the repetition, the byte dist back is the next one. */
  lemma BackReference(out: seq<u8>, dist: nat, len: nat, j: nat)
    requires 1 <= dist <= |out| && j < len
    ensures var so := out + Repeated(out, dist, len)[..j];
      so[|so| - dist] == Repeated(out, dist, len)[j]
  {
    if j < dist {
      ModSmall(j, dist);
    } else {
      ModStep(j - dist, dist);
    }
  }

  lemma {:induction false} CopyIsRepetition(out: seq<u8>, dist: nat, len: nat, j: nat, limit: nat)
    requires 1 <= dist <= |out| && j <= len && |out| + len <= limit
    ensures Copy(out + Repeated(out, dist, len)[..j], dist, len - j, limit) == out + Repeated(out, dist, len)
    decreases len - j
  {
    var bytes := Repeated(out, dist, len);
    if j == len {
      assert bytes[..j] == bytes;
    } else {
      BackReference(out, dist, len, j);
      assert out + bytes[..j] + [bytes[j]] == out + bytes[..j + 1];
      CopyIsRepetition(out, dist, len, j + 1, limit);
    }
  }

  // ---- Printing tokens --------------------------------------------------------------------------

  /** The symbol of a position: the number of its binary digits. */
  function Digits(x: nat): nat {
    if x == 0 then 0 else 1 + Digits(x / 2)
  }

  lemma {:induction false} DigitsBound(x: nat)
    requires x > 0
    ensures Digits(x) >= 1 && Pow2(Digits(x) - 1) <= x < Pow2(Digits(x))
  {
    if x > 1 {
      DigitsBound(x / 2);
    }
  }

  function PositionExtra(x: nat): seq<bool> {
    if Digits(x) <= 1 then []
    else
      DigitsBound(x);
      Binary(x - Pow2(Digits(x) - 1), Digits(x) - 1)
  }

  function TokenSymbol(tok: Token): nat {
    match tok
    case Literal(b) => b
    case Match(len, _) => len + 253
  }

  predicate TokenEncodable(tok: Token, chars: Code, positions: Code) {
    && Encodable(chars, TokenSymbol(tok))
    && (tok.Match? ==> tok.dist >= 1 && Encodable(positions, Digits(tok.dist - 1)))
  }

  function PrintDistance(tok: Token, positions: Code): seq<bool>
    requires tok.Match? ==> tok.dist >= 1 && Encodable(positions, Digits(tok.dist - 1))
  {
    match tok
    case Literal(_) => []
    case Match(_, dist) => CodeBits(positions, Digits(dist - 1)) + PositionExtra(dist - 1)
  }

  function PrintToken(tok: Token, chars: Code, positions: Code): seq<bool>
    requires TokenEncodable(tok, chars, positions)
  {
    CodeBits(chars, TokenSymbol(tok)) + PrintDistance(tok, positions)
  }

  lemma PositionFromRoundTrip(src: seq<u8>, pos: nat, x: nat)
    requires Holds(src, pos, PositionExtra(x))
    ensures PositionFrom(src, Digits(x), pos) == (x, pos + |PositionExtra(x)|)
  {
    if x > 0 {
      DigitsBound(x);
      if Digits(x) > 1 {
        ExtraRoundTrip(src, pos, x, Digits(x));
      } else {
        assert Pow2(1) == 2;
      }
    }
  }

  lemma ExtraRoundTrip(src: seq<u8>, pos: nat, x: nat, v: nat)
    requires v > 1 && Pow2(v - 1) <= x < Pow2(v) && Holds(src, pos, Binary(x - Pow2(v - 1), v - 1))
    ensures PositionFrom(src, v, pos) == (x, pos + (v - 1))
  {
    ReadBinary(src, pos, x - Pow2(v - 1), v - 1);
  }

  lemma PositionRoundTrip(src: seq<u8>, pos: nat, positions: Code, x: nat)
    requires CodeOk(positions, MAXNP) && Encodable(positions, Digits(x))
    requires Holds(src, pos, CodeBits(positions, Digits(x)) + PositionExtra(x))
    ensures ReadPosition(src, pos, positions) == (x, pos + |CodeBits(positions, Digits(x))| + |PositionExtra(x)|)
  {
    hide CodeBits, PositionExtra, Holds, Encodable, CodeOk, Digits, ReadSymbol, PositionFrom;
    HoldsSplit(src, pos, CodeBits(positions, Digits(x)), PositionExtra(x));
    SymbolRoundTrip(src, pos, positions, MAXNP, Digits(x));
    PositionFromRoundTrip(src, pos + |CodeBits(positions, Digits(x))|, x);
  }

  /** The decoder after reading the whole of one token in the open block d. */
  function After(d: Decoder, bits: nat): Decoder {
    d.(block := (d.block + 0xFFFF) % 0x1_0000, pos := d.pos + bits)
  }

  lemma CharRoundTrip(src: seq<u8>, d: Decoder, s: nat)
    requires CodeOk(d.chars, NC) && CodeOk(d.positions, MAXNP) && Encodable(d.chars, s)
    requires Holds(src, d.pos, CodeBits(d.chars, s))
    ensures ReadChar(src, d) == (s, After(d, |CodeBits(d.chars, s)|))
  {
    SymbolRoundTrip(src, d.pos, d.chars, NC, s);
  }

  lemma AfterMatch(src: seq<u8>, orig: nat, c: nat, d: Decoder, x: nat, p: nat, out: seq<u8>)
    requires CodeOk(d.chars, NC) && CodeOk(d.positions, MAXNP) && c >= 256
    requires ReadPosition(src, d.pos, d.positions) == (x, p) && x + 1 <= |out| < orig
    ensures AfterChar(src, orig, c, d, out) ==
      var more := Copy(out, x + 1, c - 253, orig);
      if |more| >= orig then Stop(more) else Go(d.(pos := p), more)
  {
  }

  lemma MatchRoundTrip(src: seq<u8>, orig: nat, d: Decoder, len: nat, dist: nat, out: seq<u8>)
    requires CodeOk(d.chars, NC) && CodeOk(d.positions, MAXNP) && 3 <= len <= 256 && 1 <= dist <= |out|
    requires Encodable(d.positions, Digits(dist - 1))
    requires Holds(src, d.pos, CodeBits(d.positions, Digits(dist - 1)) + PositionExtra(dist - 1))
    requires |out| + len <= orig
    ensures AfterChar(src, orig, len + 253, d, out) ==
      var more := out + Repeated(out, dist, len);
      if |more| >= orig then Stop(more)
      else Go(d.(pos := d.pos + |CodeBits(d.positions, Digits(dist - 1))| + |PositionExtra(dist - 1)|), more)
  {
    hide CodeBits, PositionExtra, Holds, Encodable, CodeOk, Digits, AfterChar, Copy, ReadPosition;
    var p := d.pos + |CodeBits(d.positions, Digits(dist - 1))| + |PositionExtra(dist - 1)|;
    PositionRoundTrip(src, d.pos, d.positions, dist - 1);
    AfterMatch(src, orig, len + 253, d, dist - 1, p, out);
    CopyMakesMatch(out, dist, len, orig);
  }

  lemma CopyMakesMatch(out: seq<u8>, dist: nat, len: nat, limit: nat)
    requires 1 <= dist <= |out| && |out| + len <= limit
    ensures Copy(out, dist, len, limit) == out + Repeated(out, dist, len)
  {
    assert out + Repeated(out, dist, len)[..0] == out;
    CopyIsRepetition(out, dist, len, 0, limit);
  }

  /** One token, read where it was printed. A match that completes the output stops the decoder at once. */
  lemma TokenRoundTrip(src: seq<u8>, orig: nat, d: Decoder, tok: Token, out: seq<u8>)
    requires CodeOk(d.chars, NC) && CodeOk(d.positions, MAXNP) && TokenOk(tok, out)
    requires TokenEncodable(tok, d.chars, d.positions) && Holds(src, d.pos, PrintToken(tok, d.chars, d.positions))
    requires |Apply(tok, out)| <= orig
    ensures var (c, d') := ReadChar(src, d);
      AfterChar(src, orig, c, d', out) ==
        if tok.Match? && |Apply(tok, out)| >= orig then Stop(Apply(tok, out))
        else Go(After(d, |PrintToken(tok, d.chars, d.positions)|), Apply(tok, out))
  {
    hide CodeBits, PositionExtra, Holds, Repeated, Encodable, CodeOk, Digits, ReadChar, Copy, ReadPosition;
    var code := CodeBits(d.chars, TokenSymbol(tok));
    HoldsSplit(src, d.pos, code, PrintDistance(tok, d.positions));
    CharRoundTrip(src, d, TokenSymbol(tok));
    match tok
    case Literal(b) =>
    case Match(len, dist) =>
      MatchRoundTrip(src, orig, After(d, |code|), len, dist, out);
  }

  // ---- Blocks -----------------------------------------------------------------------------------

  datatype Block = Block(extra: PTPrint, chars: CPrint, positions: PTPrint, tokens: seq<Token>)

  predicate TokensOk(tokens: seq<Token>, chars: Code, positions: Code, out: seq<u8>) {
    tokens == [] ||
    (TokenOk(tokens[0], out) && TokenEncodable(tokens[0], chars, positions)
     && TokensOk(tokens[1..], chars, positions, Apply(tokens[0], out)))
  }

  function PrintTokens(tokens: seq<Token>, chars: Code, positions: Code, out: seq<u8>): seq<bool>
    requires TokensOk(tokens, chars, positions, out)
  {
    if tokens == [] then []
    else PrintToken(tokens[0], chars, positions) + PrintTokens(tokens[1..], chars, positions, Apply(tokens[0], out))
  }

  function ApplyAll(tokens: seq<Token>, chars: Code, positions: Code, out: seq<u8>): (more: seq<u8>)
    requires TokensOk(tokens, chars, positions, out)
    ensures out <= more && |more| >= |out| + |tokens|
  {
    if tokens == [] then out else ApplyAll(tokens[1..], chars, positions, Apply(tokens[0], out))
  }

  ghost predicate HeaderOk(b: Block, pbit: nat) {
    && PTOk(b.extra, 19, 5, 3)
    && COk(b.chars, PTCode(b.extra))
    && PTOk(b.positions, 31, pbit, 0xFFFF)
    && 1 <= |b.tokens| <= 0x1_0000
  }

  /** A block of 2^16 tokens prints its size as zero. */
  ghost function PrintHeader(b: Block, pbit: nat): seq<bool>
    requires HeaderOk(b, pbit)
  {
    Binary(|b.tokens| % 0x1_0000, 16) +
    (PrintPT(b.extra, 5, 3) + (PrintC(b.chars, PTCode(b.extra)) + PrintPT(b.positions, pbit, 0xFFFF)))
  }

  /** Blocks whose tokens are all encodable in their own codes and never reach back before the first byte. */
  ghost predicate BlocksOk(blocks: seq<Block>, pbit: nat, out: seq<u8>) {
    blocks == [] ||
    var b := blocks[0];
    var chars, positions := CCode(b.chars), PTCode(b.positions);
    && HeaderOk(b, pbit) && TokensOk(b.tokens, chars, positions, out)
    && BlocksOk(blocks[1..], pbit, ApplyAll(b.tokens, chars, positions, out))
  }

  ghost function PrintBlocks(blocks: seq<Block>, pbit: nat, out: seq<u8>): seq<bool>
    requires BlocksOk(blocks, pbit, out)
  {
    if blocks == [] then []
    else
      var b := blocks[0];
      var chars, positions := CCode(b.chars), PTCode(b.positions);
      PrintHeader(b, pbit) + (PrintTokens(b.tokens, chars, positions, out) +
                              PrintBlocks(blocks[1..], pbit, ApplyAll(b.tokens, chars, positions, out)))
  }

  /** The LZ77 expansion of all blocks. */
  ghost function ExpandBlocks(blocks: seq<Block>, pbit: nat, out: seq<u8>): (more: seq<u8>)
    requires BlocksOk(blocks, pbit, out)
    ensures out <= more && |more| >= |out| + |blocks|
  {
    if blocks == [] then out
    else
      var b := blocks[0];
      ExpandBlocks(blocks[1..], pbit, ApplyAll(b.tokens, CCode(b.chars), PTCode(b.positions), out))
  }

  // ---- Every code can be printed ----------------------------------------------------------------

  /** The plainest print of lengths: all of them, none skipped. */
  lemma PTPrints(lens: seq<nat>, nbit: nat, special: nat)
    requires Complete(lens) && 3 <= |lens| < Pow2(nbit) && special in {3, 0xFFFF} && |lens| < 0xFFFF
    ensures PTOk(PTMany(lens, |lens|, 0), |lens|, nbit, special) && PTCode(PTMany(lens, |lens|, 0)) == Canonical(lens)
  {
    hide Complete;
  }

  /** A list of lengths, each as its own symbol. */
  function PlainItems(lens: seq<nat>): seq<Item> {
    if lens == [] then [] else [if lens[0] == 0 then Zero else Length(lens[0])] + PlainItems(lens[1..])
  }

  /** The Extra Set's code has the symbols that a plain print of these lengths uses: 0, and every length plus 2. */
  predicate Covers(extra: Code, lens: seq<nat>) {
    forall c :: 0 <= c < |lens| ==> lens[c] <= 16 && Encodable(extra, if lens[c] == 0 then 0 else lens[c] + 2)
  }

  lemma {:induction false} PlainPrints(lens: seq<nat>, extra: Code)
    requires Covers(extra, lens)
    ensures ItemsOk(extra, PlainItems(lens)) && AllLengths(PlainItems(lens)) == lens
    decreases |lens|
  {
    hide Encodable;
    if lens != [] {
      assert Covers(extra, lens[1..]) by {
        forall c | 0 <= c < |lens[1..]|
          ensures lens[1..][c] <= 16 && Encodable(extra, if lens[1..][c] == 0 then 0 else lens[1..][c] + 2)
        {
          assert lens[1..][c] == lens[c + 1];
        }
      }
      PlainPrints(lens[1..], extra);
      var x := if lens[0] == 0 then Zero else Length(lens[0]);
      assert ([x] + PlainItems(lens[1..]))[1..] == PlainItems(lens[1..]);
      assert [lens[0]] + lens[1..] == lens;
    }
  }

  /** A code for all 19 symbols of the Extra Set: 13 of four bits and 6 of five. */
  function AllExtra(): seq<nat> { seq(19, c => if c < 13 then 4 else 5) }

  lemma {:induction false} AllExtraKraft(c: nat)
    requires c <= 19
    ensures ValidLengths(AllExtra())
    ensures Kraft(AllExtra(), c) == if c <= 13 then 0x1000 * c else 0xd000 + 0x800 * (c - 13)
  {
    Pow2Literals();
    if c > 0 { AllExtraKraft(c - 1); }
  }

  lemma AllExtraCovers(lens: seq<nat>)
    requires ValidLengths(lens)
    ensures Complete(AllExtra()) && Covers(Canonical(AllExtra()), lens)
  {
    hide Kraft;
    AllExtraKraft(19);
  }

  /** Any complete codes of 510 and 31 symbols have a header, with any complete code of 19 symbols that covers the
      lengths of the first; four bits of position count reach symbols up to 14 only. */
  lemma EveryCodePrints(extra: seq<nat>, chars: seq<nat>, positions: seq<nat>, pbit: nat, tokens: seq<Token>)
    requires |extra| == 19 && Complete(extra) && |chars| == 510 && Complete(chars) && Covers(Canonical(extra), chars)
    requires |positions| == 31 && Complete(positions) && 1 <= |tokens| <= 0x1_0000
    requires pbit == 5 || (pbit == 4 && forall v :: 15 <= v < 31 ==> positions[v] == 0)
    ensures var b := Block(PTMany(extra, 19, 0), CMany(chars, PlainItems(chars)),
                           PTMany(positions, if pbit == 4 then 15 else 31, 0), tokens);
      && HeaderOk(b, pbit)
      && PTCode(b.extra) == Canonical(extra) && CCode(b.chars) == Canonical(chars)
      && PTCode(b.positions) == Canonical(positions)
  {
    hide Complete, ItemsOk, AllLengths;
    assert Pow2(5) == 32 && Pow2(4) == 16;
    PTPrints(extra, 5, 3);
    PlainPrints(chars, Canonical(extra));
  }

  /** There always is such a code of 19 symbols. */
  lemma EveryCharCodePrints(chars: seq<nat>)
    requires |chars| == 510 && Complete(chars)
    ensures |AllExtra()| == 19 && Complete(AllExtra()) && Covers(Canonical(AllExtra()), chars)
  {
    AllExtraCovers(chars);
  }

  /** So do codes of one symbol each. */
  lemma SingleCodesPrint(e: nat, c: nat, v: nat, pbit: nat, tokens: seq<Token>)
    requires e < 19 && c < 510 && v < (if pbit == 4 then 16 else 31) && (pbit == 4 || pbit == 5)
    requires 1 <= |tokens| <= 0x1_0000
    ensures var b := Block(PTOne(e), COne(c), PTOne(v), tokens);
      HeaderOk(b, pbit) && CCode(b.chars) == Single(c) && PTCode(b.positions) == Single(v)
  {
    assert Pow2(5) == 32 && Pow2(4) == 16;
  }

  /** What the decoder knows once it has read the header of b at pos. */
  ghost function Opening(b: Block, pbit: nat, pos: nat): Decoder
    requires HeaderOk(b, pbit)
  {
    Decoder(|b.tokens| % 0x1_0000, CCode(b.chars), PTCode(b.positions), pos + |PrintHeader(b, pbit)|)
  }

  lemma HeaderCodesOk(b: Block, pbit: nat)
    requires HeaderOk(b, pbit)
    ensures CodeOk(PTCode(b.extra), NT) && CodeOk(CCode(b.chars), NC) && CodeOk(PTCode(b.positions), MAXNP)
  {
  }

  /** Reading the two codes in turn. */
  lemma CodesJoin(src: seq<u8>, pos: nat, extra: Code, pbit: nat, chars: Code, p: nat, positions: Code, p': nat)
    requires CodeOk(extra, NT) && ReadCCode(src, pos, extra) == Got(chars, p)
    requires ReadPTCode(src, p, MAXNP, pbit, 0xFFFF) == Got(positions, p')
    ensures ReadCodes(src, pos, extra, pbit) == Got((chars, positions), p')
  {
  }

  lemma CodesRoundTrip(src: seq<u8>, pos: nat, extra: Code, c: CPrint, q: PTPrint, pbit: nat)
    requires CodeOk(extra, NT) && COk(c, extra) && PTOk(q, 31, pbit, 0xFFFF)
    requires Holds(src, pos, PrintC(c, extra)) && Holds(src, pos + |PrintC(c, extra)|, PrintPT(q, pbit, 0xFFFF))
    ensures ReadCodes(src, pos, extra, pbit) ==
      Got((CCode(c), PTCode(q)), pos + |PrintC(c, extra)| + |PrintPT(q, pbit, 0xFFFF)|)
  {
    hide PrintPT, PrintC, Holds, CodeOk, ReadCCode, ReadPTCode, ReadCodes, Complete, ItemsOk, SkipOk;
    CRoundTrip(src, pos, c, extra);
    PTRoundTrip(src, pos + |PrintC(c, extra)|, q, MAXNP, pbit, 0xFFFF);
    CodesJoin(src, pos, extra, pbit, CCode(c), pos + |PrintC(c, extra)|,
              PTCode(q), pos + |PrintC(c, extra)| + |PrintPT(q, pbit, 0xFFFF)|);
  }

  lemma HeaderJoin(src: seq<u8>, pos: nat, pbit: nat, extra: Code, p: nat, chars: Code, positions: Code, p': nat)
    requires ReadPTCode(src, pos + 16, NT, 5, 3) == Got(extra, p)
    requires ReadCodes(src, p, extra, pbit) == Got((chars, positions), p')
    ensures ReadHeader(src, pos, pbit) == Got(Decoder(Window(src, pos, 16), chars, positions, p'), p')
  {
  }

  /** The four parts of a printed header stand one after the other. */
  lemma HeaderHolds(src: seq<u8>, pos: nat, b: Block, pbit: nat)
    requires HeaderOk(b, pbit) && Holds(src, pos, PrintHeader(b, pbit))
    ensures Window(src, pos, 16) == |b.tokens| % 0x1_0000
    ensures Holds(src, pos + 16, PrintPT(b.extra, 5, 3))
    ensures var p := pos + 16 + |PrintPT(b.extra, 5, 3)|;
      && Holds(src, p, PrintC(b.chars, PTCode(b.extra)))
      && Holds(src, p + |PrintC(b.chars, PTCode(b.extra))|, PrintPT(b.positions, pbit, 0xFFFF))
  {
    hide PrintPT, PrintC, Holds;
    FourParts(src, pos, Binary(|b.tokens| % 0x1_0000, 16), PrintPT(b.extra, 5, 3),
              PrintC(b.chars, PTCode(b.extra)), PrintPT(b.positions, pbit, 0xFFFF));
    SizeRoundTrip(src, pos, |b.tokens|);
  }

  lemma FourParts(src: seq<u8>, p: int, a: seq<bool>, b: seq<bool>, c: seq<bool>, d: seq<bool>)
    requires Holds(src, p, a + (b + (c + d)))
    ensures Holds(src, p, a) && Holds(src, p + |a|, b)
    ensures Holds(src, p + |a| + |b|, c) && Holds(src, p + |a| + |b| + |c|, d)
  {
    HoldsSplit(src, p, a, b + (c + d));
    HoldsSplit(src, p + |a|, b, c + d);
    HoldsSplit(src, p + |a| + |b|, c, d);
  }

  lemma HeaderPartsRoundTrip(src: seq<u8>, pos: nat, pbit: nat, t: PTPrint, p: nat, c: CPrint, q: PTPrint, p': nat)
    requires PTOk(t, 19, 5, 3) && COk(c, PTCode(t)) && PTOk(q, 31, pbit, 0xFFFF)
    requires Holds(src, pos + 16, PrintPT(t, 5, 3)) && p == pos + 16 + |PrintPT(t, 5, 3)|
    requires Holds(src, p, PrintC(c, PTCode(t))) && Holds(src, p + |PrintC(c, PTCode(t))|, PrintPT(q, pbit, 0xFFFF))
    requires p' == p + |PrintC(c, PTCode(t))| + |PrintPT(q, pbit, 0xFFFF)|
    ensures ReadHeader(src, pos, pbit) == Got(Decoder(Window(src, pos, 16), CCode(c), PTCode(q), p'), p')
  {
    hide PrintPT, PrintC, Holds;
    PTRoundTrip(src, pos + 16, t, NT, 5, 3);
    CodesRoundTrip(src, p, PTCode(t), c, q, pbit);
    HeaderJoin(src, pos, pbit, PTCode(t), p, CCode(c), PTCode(q), p');
  }

  lemma HeaderLength(b: Block, pbit: nat)
    requires HeaderOk(b, pbit)
    ensures |PrintHeader(b, pbit)| ==
      16 + |PrintPT(b.extra, 5, 3)| + |PrintC(b.chars, PTCode(b.extra))| + |PrintPT(b.positions, pbit, 0xFFFF)|
  {
  }

  lemma HeaderRoundTrip(src: seq<u8>, pos: nat, b: Block, pbit: nat)
    requires HeaderOk(b, pbit) && Holds(src, pos, PrintHeader(b, pbit))
    ensures ReadHeader(src, pos, pbit) == Got(Opening(b, pbit, pos), pos + |PrintHeader(b, pbit)|)
  {
    hide PrintPT, PrintC, PrintHeader, Holds;
    HeaderLength(b, pbit);
    HeaderHolds(src, pos, b, pbit);
    HeaderPartsRoundTrip(src, pos, pbit, b.extra, pos + 16 + |PrintPT(b.extra, 5, 3)|, b.chars, b.positions,
                         pos + |PrintHeader(b, pbit)|);
  }

  lemma SizeRoundTrip(src: seq<u8>, pos: nat, n: nat)
    requires Holds(src, pos, Binary(n % 0x1_0000, 16))
    ensures Window(src, pos, 16) == n % 0x1_0000
  {
    Pow2Literals();
    ReadBinary(src, pos, n % 0x1_0000, 16);
  }

  // ---- The end of the stream --------------------------------------------------------------------

  /** From e on the stream holds nothing but zeros: the padding of the last byte, and what lies beyond. */
  ghost predicate ZeroFrom(src: seq<u8>, e: int) {
    forall i :: i >= e ==> !StreamBit(src, i)
  }

  lemma {:induction false} ZeroWindow(src: seq<u8>, e: int, p: int, n: nat)
    requires ZeroFrom(src, e) && p >= e
    ensures Window(src, p, n) == 0
  {
    if n > 0 { ZeroWindow(src, e, p, n - 1); }
  }

  /** Zero padding reads as a block whose only symbol is the literal 0, so a complete output ends there. */
  lemma ZeroHeader(src: seq<u8>, pos: nat, pbit: nat)
    requires ZeroFrom(src, pos)
    ensures ReadHeader(src, pos, pbit).Got?
    ensures ReadHeader(src, pos, pbit).value.chars == Single(0)
  {
    ZeroWindow(src, pos, pos, 16);
    ZeroWindow(src, pos, pos + 16, 5);
    ZeroWindow(src, pos, pos + 16 + 5, 5);
    var p := pos + 16 + 2 * 5;
    ZeroWindow(src, pos, p, 9);
    ZeroWindow(src, pos, p + 9, 9);
    ZeroWindow(src, pos, p + 2 * 9, pbit);
    ZeroWindow(src, pos, p + 2 * 9 + pbit, pbit);
  }

  lemma EndOfStream(src: seq<u8>, pbit: nat, orig: nat, d: Decoder, out: seq<u8>)
    requires DecoderOk(d) && d.block == 0 && ZeroFrom(src, d.pos) && |out| == orig
    ensures Run(src, pbit, orig, d, out) == Finished(out)
  {
    ZeroHeader(src, d.pos, pbit);
  }

  // ---- Bad tables -------------------------------------------------------------------------------

  /** Printed lengths whose Kraft sum is no multiple of 2^16 are refused, in the Extra Set and in the Position Set. */
  lemma BadLengthsRefused(src: seq<u8>, pos: nat, lens: seq<nat>, nbit: nat, special: nat)
    requires ValidLengths(lens) && 3 <= |lens| < Pow2(nbit) && Kraft(lens, |lens|) % 0x1_0000 != 0
    requires special in {3, 0xFFFF} && |lens| < 0xFFFF
    requires Holds(src, pos, PrintPT(PTMany(lens, |lens|, 0), nbit, special))
    ensures ReadPTCode(src, pos, |lens|, nbit, special) == BadTable
  {
    hide Holds, PrintLengths, ReadLengths, Window, Fit, Kraft;
    var n := |lens|;
    assert lens[..0] == [];
    HoldsSplit(src, pos, Binary(n, nbit), PrintLengths(lens, 0, n, special, 0));
    ReadBinary(src, pos, n, nbit);
    LengthsRoundTrip(src, pos + nbit, lens, 0, n, special, 0);
    FitPrefix(ReadLengths(src, pos + nbit, n, special, []).value, lens, n);
  }

  /** So a stream whose first block has such an Extra Set is corrupt, and nothing of it is decoded. */
  lemma BadStreamRefused(src: seq<u8>, pbit: nat, orig: nat, lens: seq<nat>)
    requires |lens| == 19 && ValidLengths(lens) && Kraft(lens, 19) % 0x1_0000 != 0
    requires Holds(src, 16, PrintPT(PTMany(lens, 19, 0), 5, 3))
    ensures Expand(src, pbit, orig) == Corrupt([])
  {
    hide Holds, PrintPT, Kraft, ReadPTCode;
    assert Pow2(5) == 32;
    BadLengthsRefused(src, 16, lens, 5, 3);
  }

  // ---- The round trip ---------------------------------------------------------------------------

  /** Part of a printed stream: the tokens left in the open block, then whole blocks, then zeros. */
  ghost predicate Printed(src: seq<u8>, pbit: nat, d: Decoder, tokens: seq<Token>, blocks: seq<Block>, out: seq<u8>) {
    && TokensOk(tokens, d.chars, d.positions, out)
    && var more := ApplyAll(tokens, d.chars, d.positions, out);
       && BlocksOk(blocks, pbit, more)
       && var bits := PrintTokens(tokens, d.chars, d.positions, out) + PrintBlocks(blocks, pbit, more);
          Holds(src, d.pos, bits) && ZeroFrom(src, d.pos + |bits|)
  }

  /** All that this part expands to. */
  ghost function Rest(src: seq<u8>, pbit: nat, d: Decoder, tokens: seq<Token>, blocks: seq<Block>,
                      out: seq<u8>): (r: seq<u8>)
    requires Printed(src, pbit, d, tokens, blocks, out)
    ensures out <= r && |r| >= |out| + |tokens| + |blocks|
  {
    ExpandBlocks(blocks, pbit, ApplyAll(tokens, d.chars, d.positions, out))
  }

  /** After one token, the rest is still a part of a printed stream with the same expansion. */
  lemma PrintedStep(src: seq<u8>, pbit: nat, d: Decoder, tokens: seq<Token>, blocks: seq<Block>, out: seq<u8>)
    requires Printed(src, pbit, d, tokens, blocks, out) && tokens != []
    ensures TokenOk(tokens[0], out) && TokenEncodable(tokens[0], d.chars, d.positions)
    ensures Holds(src, d.pos, PrintToken(tokens[0], d.chars, d.positions))
    ensures var d', more := After(d, |PrintToken(tokens[0], d.chars, d.positions)|), Apply(tokens[0], out);
      && Printed(src, pbit, d', tokens[1..], blocks, more)
      && Rest(src, pbit, d', tokens[1..], blocks, more) == Rest(src, pbit, d, tokens, blocks, out)
  {
    hide PrintToken, Apply, Holds, HeaderOk;
    var first := PrintToken(tokens[0], d.chars, d.positions);
    var more := Apply(tokens[0], out);
    var rest := PrintTokens(tokens[1..], d.chars, d.positions, more);
    var tail := PrintBlocks(blocks, pbit, ApplyAll(tokens, d.chars, d.positions, out));
    Assoc(first, rest, tail);
    HoldsSplit(src, d.pos, first, rest + tail);
  }

  /** With no tokens left, the next block's header opens its tokens. */
  lemma PrintedOpen(src: seq<u8>, pbit: nat, d: Decoder, blocks: seq<Block>, out: seq<u8>)
    requires Printed(src, pbit, d, [], blocks, out) && blocks != []
    ensures HeaderOk(blocks[0], pbit)
    ensures ReadHeader(src, d.pos, pbit).Got? && ReadHeader(src, d.pos, pbit).value == Opening(blocks[0], pbit, d.pos)
    ensures var open := Opening(blocks[0], pbit, d.pos);
      && Printed(src, pbit, open, blocks[0].tokens, blocks[1..], out)
      && Rest(src, pbit, open, blocks[0].tokens, blocks[1..], out) == Rest(src, pbit, d, [], blocks, out)
  {
    hide PrintHeader, Holds, HeaderOk, ReadHeader, CCode, PTCode;
    var b := blocks[0];
    var chars, positions := CCode(b.chars), PTCode(b.positions);
    var head := PrintHeader(b, pbit);
    var body := PrintTokens(b.tokens, chars, positions, out) +
                PrintBlocks(blocks[1..], pbit, ApplyAll(b.tokens, chars, positions, out));
    assert [] + PrintBlocks(blocks, pbit, out) == head + body;
    HoldsSplit(src, d.pos, head, body);
    HeaderRoundTrip(src, d.pos, b, pbit);
  }

  /** One turn of decoding with the block open. */
  ghost function CharStep(src: seq<u8>, orig: nat, open: Decoder, out: seq<u8>): (s: Step)
    requires CodeOk(open.chars, NC) && CodeOk(open.positions, MAXNP) && |out| <= orig
    ensures s.Go? ==> DecoderOk(s.d) && |out| < |s.out| <= orig
  {
    var (c, d') := ReadChar(src, open);
    AfterChar(src, orig, c, d', out)
  }

  lemma NextIsCharStep(src: seq<u8>, pbit: nat, orig: nat, d: Decoder, open: Decoder, out: seq<u8>)
    requires DecoderOk(d) && |out| <= orig && CodeOk(open.chars, NC) && CodeOk(open.positions, MAXNP)
    requires OpenBlock(src, d, pbit).Got? && OpenBlock(src, d, pbit).value == open
    ensures NextStep(src, pbit, orig, d, out) == CharStep(src, orig, open, out)
  {
    hide OpenBlock, ReadChar, AfterChar, CodeOk, DecoderOk;
  }

  lemma RunUnfold(src: seq<u8>, pbit: nat, orig: nat, d: Decoder, out: seq<u8>, s: Step)
    requires DecoderOk(d) && |out| <= orig && s == NextStep(src, pbit, orig, d, out)
    ensures s.Stop? ==> Run(src, pbit, orig, d, out) == Finished(s.out)
    ensures s.Go? ==> Run(src, pbit, orig, d, out) == Run(src, pbit, orig, s.d, s.out)
  {
    hide NextStep, DecoderOk;
  }

  /** The part of the stream after d decodes to all, and no more than the whole output. */
  ghost predicate Leads(src: seq<u8>, pbit: nat, d: Decoder, tokens: seq<Token>, blocks: seq<Block>, out: seq<u8>,
                        all: seq<u8>) {
    Printed(src, pbit, d, tokens, blocks, out) && Rest(src, pbit, d, tokens, blocks, out) == all
  }

  lemma LeadsBound(src: seq<u8>, pbit: nat, d: Decoder, tokens: seq<Token>, blocks: seq<Block>, out: seq<u8>,
                   all: seq<u8>)
    requires Leads(src, pbit, d, tokens, blocks, out, all)
    ensures |out| + |tokens| + |blocks| <= |all|
  {
    hide Printed;
  }

  /** One token of an open block: the decoder either goes on to the rest, or stops with the whole expansion. */
  lemma StepRoundTrip(src: seq<u8>, pbit: nat, d: Decoder, tokens: seq<Token>, blocks: seq<Block>, out: seq<u8>,
                      all: seq<u8>)
    requires CodeOk(d.chars, NC) && CodeOk(d.positions, MAXNP) && tokens != [] && |out| <= |all|
    requires Leads(src, pbit, d, tokens, blocks, out, all)
    requires d.block == |tokens| % 0x1_0000 && |tokens| <= 0x1_0000
    ensures var s := CharStep(src, |all|, d, out);
      || s == Stop(all)
      || (s.Go? && Leads(src, pbit, s.d, tokens[1..], blocks, s.out, all) && s.d.block == |tokens| - 1)
  {
    hide Printed, Holds, PrintToken, ReadChar, AfterChar, Apply, TokenOk, TokenEncodable, CodeOk;
    PrintedStep(src, pbit, d, tokens, blocks, out);
    var d', more := After(d, |PrintToken(tokens[0], d.chars, d.positions)|), Apply(tokens[0], out);
    LeadsBound(src, pbit, d', tokens[1..], blocks, more, all);
    TokenRoundTrip(src, |all|, d, tokens[0], out);
  }

  /** The decoder's block is open for tokens, either already or by reading the next header. */
  ghost predicate Opens(src: seq<u8>, pbit: nat, d: Decoder, open: Decoder) {
    && DecoderOk(d) && CodeOk(open.chars, NC) && CodeOk(open.positions, MAXNP)
    && OpenBlock(src, d, pbit).Got? && OpenBlock(src, d, pbit).value == open
  }

  /** From a state whose next block opens as open, the run is the run after one token, or ends. */
  lemma {:induction false} TurnRoundTrip(src: seq<u8>, pbit: nat, d: Decoder, open: Decoder, tokens: seq<Token>,
                                         blocks: seq<Block>, out: seq<u8>, all: seq<u8>)
    requires Opens(src, pbit, d, open) && tokens != [] && |out| <= |all|
    requires Leads(src, pbit, open, tokens, blocks, out, all)
    requires open.block == |tokens| % 0x1_0000 && |tokens| <= 0x1_0000
    ensures Run(src, pbit, |all|, d, out) == Finished(all)
    decreases |blocks|, |tokens|, 0
  {
    hide Leads, DecoderOk, CodeOk, OpenBlock, CharStep, NextStep, Run;
    NextIsCharStep(src, pbit, |all|, d, open, out);
    StepRoundTrip(src, pbit, open, tokens, blocks, out, all);
    var s := CharStep(src, |all|, open, out);
    RunUnfold(src, pbit, |all|, d, out, s);
    if s.Go? {
      RunRoundTrip(src, pbit, s.d, tokens[1..], blocks, s.out, all);
    }
  }

  lemma OpenAlready(src: seq<u8>, pbit: nat, d: Decoder)
    requires DecoderOk(d) && d.block > 0
    ensures Opens(src, pbit, d, d)
  {
  }

  /** With no tokens left, the next block opens by its header. */
  lemma OpenNext(src: seq<u8>, pbit: nat, d: Decoder, blocks: seq<Block>, out: seq<u8>, all: seq<u8>)
    requires DecoderOk(d) && d.block == 0 && blocks != [] && Leads(src, pbit, d, [], blocks, out, all)
    ensures HeaderOk(blocks[0], pbit)
    ensures var open := Opening(blocks[0], pbit, d.pos);
      Opens(src, pbit, d, open) && Leads(src, pbit, open, blocks[0].tokens, blocks[1..], out, all)
  {
    hide Printed, ReadHeader, CCode, PTCode, PrintHeader;
    PrintedOpen(src, pbit, d, blocks, out);
    HeaderCodesOk(blocks[0], pbit);
  }

  /** Running the decoder on any part of a printed stream gives the expansion of that part. */
  lemma {:induction false} RunRoundTrip(src: seq<u8>, pbit: nat, d: Decoder, tokens: seq<Token>, blocks: seq<Block>,
                                        out: seq<u8>, all: seq<u8>)
    requires DecoderOk(d) && Leads(src, pbit, d, tokens, blocks, out, all) && d.block == |tokens| < 0x1_0000
    requires |out| <= |all|
    ensures Run(src, pbit, |all|, d, out) == Finished(all)
    decreases |blocks|, |tokens|, 1
  {
    hide Leads, DecoderOk, Run, Opens;
    if tokens != [] {
      OpenAlready(src, pbit, d);
      TurnRoundTrip(src, pbit, d, d, tokens, blocks, out, all);
    } else if blocks != [] {
      OpenNext(src, pbit, d, blocks, out, all);
      TurnRoundTrip(src, pbit, d, Opening(blocks[0], pbit, d.pos), blocks[0].tokens, blocks[1..], out, all);
    } else {
      LeadsEnd(src, pbit, d, out, all);
      EndOfStream(src, pbit, |all|, d, out);
    }
  }

  lemma LeadsEnd(src: seq<u8>, pbit: nat, d: Decoder, out: seq<u8>, all: seq<u8>)
    requires Leads(src, pbit, d, [], [], out, all)
    ensures out == all && ZeroFrom(src, d.pos)
  {
  }

  /** Decompressing what was printed gives exactly the LZ77 expansion. */
  lemma RoundTrip(src: seq<u8>, pbit: nat, blocks: seq<Block>)
    requires BlocksOk(blocks, pbit, [])
    requires Holds(src, 0, PrintBlocks(blocks, pbit, [])) && ZeroFrom(src, |PrintBlocks(blocks, pbit, [])|)
    ensures Expand(src, pbit, |ExpandBlocks(blocks, pbit, [])|) == Finished(ExpandBlocks(blocks, pbit, []))
  {
    var d, all := Decoder(0, Single(0), Single(0), 0), ExpandBlocks(blocks, pbit, []);
    assert [] + PrintBlocks(blocks, pbit, []) == PrintBlocks(blocks, pbit, []);
    RunRoundTrip(src, pbit, d, [], blocks, [], all);
  }

  /** Every sequence of blocks has a compressed form that decodes to its expansion. */
  lemma PackedRoundTrip(pbit: nat, blocks: seq<Block>)
    requires BlocksOk(blocks, pbit, [])
    ensures Expand(Packed(PrintBlocks(blocks, pbit, [])), pbit, |ExpandBlocks(blocks, pbit, [])|) ==
      Finished(ExpandBlocks(blocks, pbit, []))
  {
    hide PrintBlocks, ExpandBlocks, BlocksOk, Expand, Packed, Holds;
    PackedHolds(PrintBlocks(blocks, pbit, []));
    RoundTrip(Packed(PrintBlocks(blocks, pbit, [])), pbit, blocks);
  }

  /** Any tokens in any complete codes that have their symbols: printed with the plainest header and packed, they decode
      to their expansion. */
  lemma EveryCodeDecodes(extra: seq<nat>, chars: seq<nat>, positions: seq<nat>, pbit: nat, tokens: seq<Token>)
    requires |extra| == 19 && Complete(extra) && |chars| == 510 && Complete(chars) && Covers(Canonical(extra), chars)
    requires |positions| == 31 && Complete(positions) && 1 <= |tokens| <= 0x1_0000
    requires pbit == 5 || (pbit == 4 && forall v :: 15 <= v < 31 ==> positions[v] == 0)
    requires TokensOk(tokens, Canonical(chars), Canonical(positions), [])
    ensures var b := Block(PTMany(extra, 19, 0), CMany(chars, PlainItems(chars)),
                           PTMany(positions, if pbit == 4 then 15 else 31, 0), tokens);
      var out := ApplyAll(tokens, Canonical(chars), Canonical(positions), []);
      && BlocksOk([b], pbit, [])
      && Expand(Packed(PrintBlocks([b], pbit, [])), pbit, |out|) == Finished(out)
  {
    hide Complete, Covers, Expand, Packed, PrintBlocks, HeaderOk, TokensOk;
    var b := Block(PTMany(extra, 19, 0), CMany(chars, PlainItems(chars)),
                   PTMany(positions, if pbit == 4 then 15 else 31, 0), tokens);
    EveryCodePrints(extra, chars, positions, pbit, tokens);
    assert [b][1..] == [];
    PackedRoundTrip(pbit, [b]);
  }

  /** A buffer whose header gives the two sizes and whose body is a printed stream decompresses to its expansion. */
  lemma CallRoundTrip(source: seq<u8>, version: nat, blocks: seq<Block>)
    requires |source| >= 8 && 8 + Field32(source, 0) <= |source| < 0x1_0000_0000 && (version == 1 || version == 2)
    requires var pbit := if version == 1 then 4 else 5;
      var body := source[8..8 + Field32(source, 0)];
      && BlocksOk(blocks, pbit, []) && Field32(source, 4) == |ExpandBlocks(blocks, pbit, [])| > 0
      && Holds(body, 0, PrintBlocks(blocks, pbit, [])) && ZeroFrom(body, |PrintBlocks(blocks, pbit, [])|)
    ensures CallOf(source, Field32(source, 4), true, version) ==
      Ran(Finished(ExpandBlocks(blocks, if version == 1 then 4 else 5, [])))
  {
    hide Holds, ZeroFrom, Field32, Expand, ExpandBlocks, PrintBlocks;
    RoundTrip(source[8..8 + Field32(source, 0)], if version == 1 then 4 else 5, blocks);
  }
}
