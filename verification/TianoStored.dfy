/** Every byte string has a compressed form: literals in a code with all 510 symbols. */
module TianoStored {
  import opened Words
  import opened BitStream
  import opened CanonicalCode
  import opened TianoFormat
  import opened TianoPrinter
  import opened TianoRoundTrip

  // ---- A code for all symbols -------------------------------------------------------------------

  /** Two codes of eight bits and 508 of nine. */
  function FullLengths(): seq<nat> { seq(NC, c => if c < 2 then 8 else 9) }

  /** The code of these lengths in the header: symbols 10 and 11 of the Extra Set, one bit each. */
  function ExtraLengths(): seq<nat> { seq(NT, c => if c == 10 || c == 11 then 1 else 0) }

  lemma {:induction false} FullKraft(c: nat)
    requires c <= NC
    ensures ValidLengths(FullLengths()) && Kraft(FullLengths(), c) == if c < 2 then 256 * c else 512 + 128 * (c - 2)
  {
    Pow2Literals();
    if c > 0 { FullKraft(c - 1); }
  }

  lemma {:induction false} ExtraKraft(c: nat)
    requires c <= NT
    ensures ValidLengths(ExtraLengths())
    ensures Kraft(ExtraLengths(), c) == if c <= 10 then 0 else if c == 11 then 0x8000 else 0x1_0000
  {
    Pow2Literals();
    if c > 0 { ExtraKraft(c - 1); }
  }

  lemma BothComplete()
    ensures Complete(FullLengths()) && Complete(ExtraLengths()) && |FullLengths()| == NC && |ExtraLengths()| == NT
  {
    hide Kraft;
    FullKraft(NC);
    ExtraKraft(NT);
  }

  lemma SymbolCoded(c: nat)
    requires c < NC
    ensures Encodable(Canonical(FullLengths()), c) && |FullLengths()| == NC
    ensures ItemOk(Length(FullLengths()[c])) && Encodable(Canonical(ExtraLengths()), FullLengths()[c] + 2)
  {
    hide Complete, Kraft;
  }

  lemma LengthIs()
    ensures |FullLengths()| == NC
  {
  }

  /** The lengths from c on, one by one. */
  function FullItems(c: nat): seq<Item>
    requires c <= NC
    decreases NC - c
  {
    LengthIs();
    if c == NC then [] else [Length(FullLengths()[c])] + FullItems(c + 1)
  }

  lemma {:induction false} FullItemsOk(c: nat)
    requires c <= NC
    ensures ItemsOk(Canonical(ExtraLengths()), FullItems(c)) && AllLengths(FullItems(c)) == FullLengths()[c..]
    decreases NC - c
  {
    hide FullLengths, ExtraLengths, Encodable, ItemOk;
    LengthIs();
    if c < NC {
      SymbolCoded(c);
      FullItemsOk(c + 1);
      assert ([Length(FullLengths()[c])] + FullItems(c + 1))[1..] == FullItems(c + 1);
      assert FullLengths()[c..] == [FullLengths()[c]] + FullLengths()[c + 1..];
    }
  }

  // ---- Blocks of literals -----------------------------------------------------------------------

  function Literals(bytes: seq<u8>): (tokens: seq<Token>)
    ensures |tokens| == |bytes|
  {
    seq(|bytes|, i requires 0 <= i < |bytes| => Literal(bytes[i]))
  }

  function Chunk(bytes: seq<u8>): Block {
    Block(PTMany(ExtraLengths(), 12, 3), CMany(FullLengths(), FullItems(0)), PTOne(0), Literals(bytes))
  }

  /** The bytes cut into blocks of at most 2^16. */
  function Stored(bytes: seq<u8>): seq<Block>
    decreases |bytes|
  {
    if bytes == [] then []
    else if |bytes| <= 0x1_0000 then [Chunk(bytes)]
    else [Chunk(bytes[..0x1_0000])] + Stored(bytes[0x1_0000..])
  }

  lemma {:induction false} LiteralsOk(bytes: seq<u8>, out: seq<u8>)
    ensures TokensOk(Literals(bytes), Canonical(FullLengths()), Single(0), out)
    ensures ApplyAll(Literals(bytes), Canonical(FullLengths()), Single(0), out) == out + bytes
    decreases |bytes|
  {
    hide FullLengths, Encodable;
    if bytes == [] {
      assert out + bytes == out;
    } else {
      SymbolCoded(bytes[0]);
      assert Literals(bytes)[1..] == Literals(bytes[1..]);
      LiteralsOk(bytes[1..], out + [bytes[0]]);
      assert out + [bytes[0]] + bytes[1..] == out + bytes;
    }
  }

  lemma ChunkOk(bytes: seq<u8>, pbit: nat)
    requires 1 <= |bytes| <= 0x1_0000
    ensures HeaderOk(Chunk(bytes), pbit)
  {
    hide FullLengths, ExtraLengths, Complete, ItemsOk, FullItems, SkipOk;
    BothComplete();
    FullItemsOk(0);
    assert FullLengths()[0..] == FullLengths();
    ExtraPrints();
    Pow2Positive(pbit);
  }

  lemma ExtraPrints()
    ensures Complete(ExtraLengths()) ==> PTOk(PTMany(ExtraLengths(), 12, 3), NT, 5, 3)
  {
    hide Complete;
    assert Pow2(5) == 32;
  }

  lemma {:induction false} Pow2Positive(n: nat)
    ensures Pow2(n) >= 1
  {
    if n > 0 { Pow2Positive(n - 1); }
  }

  lemma {:induction false} StoredOk(bytes: seq<u8>, pbit: nat, out: seq<u8>)
    ensures BlocksOk(Stored(bytes), pbit, out) && ExpandBlocks(Stored(bytes), pbit, out) == out + bytes
    decreases |bytes|
  {
    hide HeaderOk, Literals, TokensOk, FullItems, ApplyAll;
    if bytes == [] {
      assert out + bytes == out;
    } else if |bytes| <= 0x1_0000 {
      ChunkOk(bytes, pbit);
      LiteralsOk(bytes, out);
      OneBlock(Chunk(bytes), pbit, out, []);
    } else {
      var first, rest := bytes[..0x1_0000], bytes[0x1_0000..];
      ChunkOk(first, pbit);
      LiteralsOk(first, out);
      StoredOk(rest, pbit, out + first);
      OneBlock(Chunk(first), pbit, out, Stored(rest));
      assert first + rest == bytes && out + first + rest == out + bytes;
    }
  }

  lemma OneBlock(b: Block, pbit: nat, out: seq<u8>, blocks: seq<Block>)
    requires HeaderOk(b, pbit) && TokensOk(b.tokens, CCode(b.chars), PTCode(b.positions), out)
    requires BlocksOk(blocks, pbit, ApplyAll(b.tokens, CCode(b.chars), PTCode(b.positions), out))
    ensures BlocksOk([b] + blocks, pbit, out)
    ensures ExpandBlocks([b] + blocks, pbit, out) ==
      ExpandBlocks(blocks, pbit, ApplyAll(b.tokens, CCode(b.chars), PTCode(b.positions), out))
    ensures [b] + [] == [b]
  {
    assert ([b] + blocks)[1..] == blocks;
  }

  /** The packed form of a byte string. */
  ghost function Form(bytes: seq<u8>, pbit: nat): seq<u8> {
    StoredOk(bytes, pbit, []);
    Packed(PrintBlocks(Stored(bytes), pbit, []))
  }

  /** Every byte string, whatever its length, has a compressed form that decodes to it. */
  lemma EveryStringDecodes(bytes: seq<u8>, pbit: nat)
    ensures Expand(Form(bytes, pbit), pbit, |bytes|) == Finished(bytes)
  {
    hide Stored, Expand, PrintBlocks, Packed;
    StoredOk(bytes, pbit, []);
    assert [] + bytes == bytes;
    PackedRoundTrip(pbit, Stored(bytes));
  }

  /** A whole source buffer: the two sizes and the form. */
  ghost function Source(bytes: seq<u8>, pbit: nat): seq<u8>
    requires |bytes| < 0x1_0000_0000 && 8 + |Form(bytes, pbit)| < 0x1_0000_0000
  {
    Little32(|Form(bytes, pbit)|) + Little32(|bytes|) + Form(bytes, pbit)
  }

  /** And the decompressor, called with such a buffer for version 1 or 2 of the format, returns it. */
  lemma EveryStringDecompresses(bytes: seq<u8>, version: nat)
    requires version == 1 || version == 2
    requires var pbit := if version == 1 then 4 else 5;
      0 < |bytes| < 0x1_0000_0000 && 8 + |Form(bytes, pbit)| < 0x1_0000_0000
    ensures CallOf(Source(bytes, if version == 1 then 4 else 5), |bytes|, true, version) == Ran(Finished(bytes))
  {
    hide Form, Expand;
    var pbit := if version == 1 then 4 else 5;
    var source, form := Source(bytes, pbit), Form(bytes, pbit);
    assert source[0..4] == Little32(|form|) && source[4..8] == Little32(|bytes|) && source[8..8 + |form|] == form;
    LittleField(source, 0, |form|);
    LittleField(source, 4, |bytes|);
    EveryStringDecodes(bytes, pbit);
  }
}
