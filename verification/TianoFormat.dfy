/** The compressed format read by definition (sections 19.2 and 19.4 of the UEFI Specification 2.10): what a bit
    position of the stream means, with symbols decoded by the textbook prefix rule. No tables, no buffers. */
module TianoFormat {
  import opened Words
  import opened BitStream
  import opened CanonicalCode

  /** Symbols of the Char&Len Set, the Extra Set and the Position Set. */
  const NC: nat := 510
  const NT: nat := 19
  const MAXNP: nat := 31
  const CBIT: nat := 9
  const TBIT: nat := 5
  /** The Special argument that never matches an index. */
  const NO_SPECIAL: nat := 0xFFFF

  /** A symbol set's code: one symbol in no bits at all, or a canonical code. */
  datatype Code = Single(sym: nat) | Canonical(lens: seq<nat>)

  ghost predicate CodeOk(code: Code, n: nat) {
    match code
    case Single(s) => s < n
    case Canonical(lens) => |lens| == n && Complete(lens)
  }

  /** Reading at a position: a value and the next position, a table MakeTable refuses, or input without a meaning
      in the format. */
  datatype Read<+T> = Got(value: T, pos: nat) | BadTable | Outside {
    predicate IsFailure() { !Got? }

    function PropagateFailure<U>(): Read<U>
      requires IsFailure()
    {
      if BadTable? then BadTable else Outside
    }

    function Extract(): (T, nat)
      requires Got?
    {
      (value, pos)
    }
  }

  ghost function ReadSymbol(src: seq<u8>, pos: nat, code: Code, n: nat): (r: (nat, nat))
    requires CodeOk(code, n)
    ensures r.0 < n
  {
    match code
    case Single(s) => (s, pos)
    case Canonical(lens) =>
      Pow2Literals();
      var s := SymbolAt(lens, Window(src, pos, CODE_BIT));
      (s, pos + lens[s])
  }

  function Zeros(n: nat): (z: seq<nat>)
    ensures |z| == n && forall i :: 0 <= i < n ==> z[i] == 0
  {
    seq(n, _ => 0)
  }

  /** acc with zeros added, or cut, to exactly n lengths. */
  function Fit(acc: seq<nat>, n: nat): (lens: seq<nat>)
    ensures |lens| == n
  {
    if |acc| >= n then acc[..n] else acc + Zeros(n - |acc|)
  }

  // ---- Code lengths of the Extra Set and the Position Set ---------------------------------------

  /** How many ones stand at p, counting at most limit. */
  function Ones(src: seq<u8>, p: int, limit: nat): (k: nat)
    ensures k <= limit
    decreases limit, p
  {
    if limit == 0 || !StreamBit(src, p) then 0 else 1 + Ones(src, p + 1, limit - 1)
  }

  /** One code length: three bits, and after 7 as many ones as the length exceeds 7, then a zero. */
  function ReadLength(src: seq<u8>, pos: nat): Read<nat> {
    var c := Window(src, pos, 3);
    if c < 7 then Got(c, pos + 3)
    else
      var k := Ones(src, pos + 3, 10);
      if k == 10 then Outside else Got(7 + k, pos + 4 + k)
  }

  /** One printed length, and after the special index a two-bit run of zeros. */
  function PTItem(src: seq<u8>, pos: nat, special: nat, acc: seq<nat>): (r: Read<seq<nat>>)
    ensures r.Got? ==> |r.value| > |acc|
    ensures !r.BadTable?
  {
    var (c, p) :- ReadLength(src, pos);
    if |acc| + 1 == special then Got(acc + [c] + Zeros(Window(src, p, 2)), p + 2) else Got(acc + [c], p)
  }

  function ReadLengths(src: seq<u8>, pos: nat, number: nat, special: nat, acc: seq<nat>): (r: Read<seq<nat>>)
    ensures !r.BadTable?
    decreases if |acc| < number then number - |acc| else 0
  {
    if |acc| >= number then Got(acc, pos)
    else
      var (more, p) :- PTItem(src, pos, special, acc);
      ReadLengths(src, p, number, special, more)
  }

  ghost function MakeCode(lens: seq<nat>, pos: nat): (r: Read<Code>)
    ensures r.Got? ==> CodeOk(r.value, |lens|)
  {
    if !ValidLengths(lens) then Outside
    else if !Accepted(lens) then BadTable
    else if Complete(lens) then Got(Canonical(lens), pos)
    else Outside
  }

  ghost function ReadPTCode(src: seq<u8>, pos: nat, nn: nat, nbit: nat, special: nat): (r: Read<Code>)
    ensures r.Got? ==> CodeOk(r.value, nn)
  {
    var number := Window(src, pos, nbit);
    if number == 0 then
      var c := Window(src, pos + nbit, nbit);
      if c < nn then Got(Single(c), pos + 2 * nbit) else Outside
    else
      var (acc, p) :- ReadLengths(src, pos + nbit, number, special, []);
      MakeCode(Fit(acc, nn), p)
  }

  // ---- Code lengths of the Char&Len Set ---------------------------------------------------------

  /** How many zero lengths symbol s of the Extra Set stands for, and the position after its extra bits. */
  function ZeroRun(src: seq<u8>, pos: nat, s: nat): (nat, nat)
    requires s <= 2
  {
    if s == 0 then (1, pos)
    else if s == 1 then (Window(src, pos, 4) + 3, pos + 4)
    else (Window(src, pos, CBIT) + 20, pos + CBIT)
  }

  /** One coded length, or a run of zeros. */
  ghost function CItem(src: seq<u8>, pos: nat, extra: Code, acc: seq<nat>): (r: Read<seq<nat>>)
    requires CodeOk(extra, NT)
    ensures r.Got? ==> |r.value| > |acc|
    ensures !r.BadTable?
  {
    var (s, p) := ReadSymbol(src, pos, extra, NT);
    if s <= 2 then
      var (run, p') := ZeroRun(src, p, s);
      if |acc| + run > NC then Outside else Got(acc + Zeros(run), p')
    else if |acc| + 1 > NC then Outside
    else Got(acc + [s - 2], p)
  }

  ghost function ReadCLengths(src: seq<u8>, pos: nat, number: nat, extra: Code, acc: seq<nat>): (r: Read<seq<nat>>)
    requires CodeOk(extra, NT)
    ensures !r.BadTable?
    decreases if |acc| < number then number - |acc| else 0
  {
    if |acc| >= number then Got(acc, pos)
    else
      var (more, p) :- CItem(src, pos, extra, acc);
      ReadCLengths(src, p, number, extra, more)
  }

  ghost function ReadCCode(src: seq<u8>, pos: nat, extra: Code): (r: Read<Code>)
    requires CodeOk(extra, NT)
    ensures r.Got? ==> CodeOk(r.value, NC)
  {
    var number := Window(src, pos, CBIT);
    if number == 0 then
      var c := Window(src, pos + CBIT, CBIT);
      if c < NC then Got(Single(c), pos + 2 * CBIT) else Outside
    else
      var (acc, p) :- ReadCLengths(src, pos + CBIT, number, extra, []);
      var lens := Fit(acc, NC);
      if Complete(lens) then Got(Canonical(lens), p) else Outside
  }

  // ---- Blocks -----------------------------------------------------------------------------------

  /** Where decoding stands: symbols left in the block, its two codes, and the stream position. */
  datatype Decoder = Decoder(block: nat, chars: Code, positions: Code, pos: nat)

  ghost predicate DecoderOk(d: Decoder) {
    d.block > 0 ==> CodeOk(d.chars, NC) && CodeOk(d.positions, MAXNP)
  }

  /** The codes of the Char&Len Set and the Position Set. */
  ghost function ReadCodes(src: seq<u8>, pos: nat, extra: Code, pbit: nat): (r: Read<(Code, Code)>)
    requires CodeOk(extra, NT)
    ensures r.Got? ==> CodeOk(r.value.0, NC) && CodeOk(r.value.1, MAXNP)
  {
    var (chars, p) :- ReadCCode(src, pos, extra);
    var (positions, p') :- ReadPTCode(src, p, MAXNP, pbit, NO_SPECIAL);
    Got((chars, positions), p')
  }

  ghost function ReadHeader(src: seq<u8>, pos: nat, pbit: nat): (r: Read<Decoder>)
    ensures r.Got? ==> CodeOk(r.value.chars, NC) && CodeOk(r.value.positions, MAXNP)
  {
    var size := Window(src, pos, 16);
    var (extra, p) :- ReadPTCode(src, pos + 16, NT, TBIT, 3);
    WithSize(size, ReadCodes(src, p, extra, pbit))
  }

  function WithSize(size: nat, r: Read<(Code, Code)>): Read<Decoder> {
    var (codes, p) :- r;
    Got(Decoder(size, codes.0, codes.1, p), p)
  }

  /** Make sure a block is open. */
  ghost function OpenBlock(src: seq<u8>, d: Decoder, pbit: nat): (r: Read<Decoder>)
    requires DecoderOk(d)
    ensures r.Got? ==> CodeOk(r.value.chars, NC) && CodeOk(r.value.positions, MAXNP)
  {
    if d.block == 0 then ReadHeader(src, d.pos, pbit) else Got(d, d.pos)
  }

  /** One symbol of the Char&Len Set; a block size of zero wraps to 2^16 symbols. */
  ghost function ReadChar(src: seq<u8>, d: Decoder): (r: (nat, Decoder))
    requires CodeOk(d.chars, NC) && CodeOk(d.positions, MAXNP)
    ensures r.0 < NC && CodeOk(r.1.chars, NC) && CodeOk(r.1.positions, MAXNP)
  {
    var (c, p) := ReadSymbol(src, d.pos, d.chars, NC);
    (c, d.(block := (d.block + 0xFFFF) % 0x1_0000, pos := p))
  }

  /** A match position: the symbol itself up to 1, else 2^(v-1) plus v-1 more bits. */
  ghost function ReadPosition(src: seq<u8>, pos: nat, positions: Code): (nat, nat)
    requires CodeOk(positions, MAXNP)
  {
    var (v, p) := ReadSymbol(src, pos, positions, MAXNP);
    PositionFrom(src, v, p)
  }

  function PositionFrom(src: seq<u8>, v: nat, p: nat): (nat, nat) {
    if v <= 1 then (v, p) else (Pow2(v - 1) + Window(src, p, v - 1), p + (v - 1))
  }

  // ---- The expansion ----------------------------------------------------------------------------

  /** Append n bytes, each the one dist back at that moment, stopping at limit bytes. */
  function Copy(out: seq<u8>, dist: nat, n: nat, limit: nat): (r: seq<u8>)
    requires 1 <= dist <= |out|
    ensures |out| <= |r| && (|out| <= limit ==> |r| <= limit)
    ensures |out| < limit && n > 0 ==> |r| > |out|
    ensures out <= r
    decreases n
  {
    if n == 0 || |out| >= limit then out else Copy(out + [out[|out| - dist]], dist, n - 1, limit)
  }

  /** What one turn of decoding comes to. */
  datatype Step = Wild | Refused | Stop(out: seq<u8>) | Go(d: Decoder, out: seq<u8>)

  /** What follows one decoded symbol. A byte needs room; a match reaches back at most to the first byte. */
  ghost function AfterChar(src: seq<u8>, orig: nat, c: nat, d: Decoder, out: seq<u8>): (s: Step)
    requires CodeOk(d.chars, NC) && CodeOk(d.positions, MAXNP) && |out| <= orig
    ensures s.Go? ==> DecoderOk(s.d) && |out| < |s.out| <= orig
  {
    if c < 256 then
      if |out| >= orig then Stop(out) else Go(d, out + [c])
    else if |out| >= orig then Wild
    else
      var (x, p) := ReadPosition(src, d.pos, d.positions);
      if x + 1 > |out| then Wild
      else
        var more := Copy(out, x + 1, c - 253, orig);
        if |more| >= orig then Stop(more) else Go(d.(pos := p), more)
  }

  ghost function NextStep(src: seq<u8>, pbit: nat, orig: nat, d: Decoder, out: seq<u8>): (s: Step)
    requires DecoderOk(d) && |out| <= orig
    ensures s.Go? ==> DecoderOk(s.d) && |out| < |s.out| <= orig
  {
    match OpenBlock(src, d, pbit)
    case BadTable => Refused
    case Outside => Wild
    case Got(open, _) =>
      var (c, d') := ReadChar(src, open);
      AfterChar(src, orig, c, d', out)
  }

  datatype Outcome = Finished(out: seq<u8>) | Corrupt(out: seq<u8>) | Undefined

  /** Everything Decode does from here on, given the bytes written so far. */
  ghost function Run(src: seq<u8>, pbit: nat, orig: nat, d: Decoder, out: seq<u8>): Outcome
    requires DecoderOk(d) && |out| <= orig
    decreases orig - |out|
  {
    match NextStep(src, pbit, orig, d, out)
    case Wild => Undefined
    case Refused => Corrupt(out)
    case Stop(all) => Finished(all)
    case Go(d', more) => Run(src, pbit, orig, d', more)
  }

  /** The whole compressed stream. */
  ghost function Expand(src: seq<u8>, pbit: nat, orig: nat): Outcome {
    Run(src, pbit, orig, Decoder(0, Single(0), Single(0), 0), [])
  }

  // ---- The call ---------------------------------------------------------------------------------

  /** What a call must come to: refused before it starts, nothing to do, or the outcome of the stream. A compressed
      size so large that adding the header wraps to 32 bits makes the source read past its buffer. */
  datatype Call = Rejected | Nothing | Overrun | Ran(outcome: Outcome)

  ghost function CallOf(source: seq<u8>, dstSize: nat, scratchFits: bool, version: nat): Call {
    if !scratchFits || |source| < 8 then Rejected
    else
      var comp, orig := Field32(source, 0), Field32(source, 4);
      if orig == 0 then Nothing
      else if |source| < (comp + 8) % 0x1_0000_0000 || dstSize != orig || (version != 1 && version != 2) then Rejected
      else if |source| < comp + 8 then Overrun
      else Ran(Expand(source[8..8 + comp], if version == 1 then 4 else 5, orig))
  }

  /** The two sizes in a buffer's header. */
  function HeaderSize(source: seq<u8>, i: nat): nat
    requires i + 4 <= |source|
  {
    var v: seq<int> := source;
    v[i] + 0x100 * v[i + 1] + 0x1_0000 * v[i + 2] + 0x100_0000 * v[i + 3]
  }

  /** Which calls are refused, have nothing to do, or decode the bytes behind the header. */
  lemma CallIs(source: seq<u8>, dstSize: nat, scratchFits: bool, version: nat)
    ensures var call := CallOf(source, dstSize, scratchFits, version);
      if |source| < 8 || !scratchFits then call == Rejected
      else
        var comp, orig := HeaderSize(source, 0), HeaderSize(source, 4);
        && (call == Nothing <==> orig == 0)
        && (call == Rejected <==>
              orig > 0 && !(|source| >= (8 + comp) % 0x1_0000_0000 && dstSize == orig && 1 <= version <= 2))
        && (call.Ran? ==>
              8 + comp <= |source| && call.outcome == Expand(source[8..][..comp], version + 3, orig))
        && (call == Overrun ==> 8 + comp >= 0x1_0000_0000)
  {
    hide Expand;
    if CallOf(source, dstSize, scratchFits, version).Ran? {
      var comp := HeaderSize(source, 0);
      assert source[8..][..comp] == source[8..8 + comp];
    }
  }
}
