/** The AArch64 instance of the program editor (fuzzer/program_aarch64.cc).

    Words are natural numbers below 2^32.  A field of a word is given by the value of its
    lowest bit (`unit`) and the number of its values (`span`): the field at bit 5 of width 19
    has unit 2^5 and span 2^19.  Shifts of 32-bit integers are divisions and products by
    powers of two, with the wrap-around written out. */
module AArch64 {
  import opened Basics
  import opened Isa
  import opened Bits
  import opened InsnFilter

  const WORD: nat := 0x1_0000_0000

  datatype BranchForm = BranchForm(matcher: BitMatcher, unit: nat, span: nat)

  // b and bl: a field at bit 0, of width 26.
  const B_FORM := BranchForm(BitMatcher(0x7C00_0000, 0x1400_0000), 1, 0x400_0000)
  // b.cond and bc.cond: a field at bit 5, of width 19.
  const BCOND_FORM := BranchForm(BitMatcher(0xFF00_0000, 0x5400_0000), 0x20, 0x8_0000)
  // cbz and cbnz: a field at bit 5, of width 19.
  const CBZ_FORM := BranchForm(BitMatcher(0x7E00_0000, 0x3400_0000), 0x20, 0x8_0000)
  // tbz and tbnz: a field at bit 5, of width 14.
  const TBZ_FORM := BranchForm(BitMatcher(0x7E00_0000, 0x3600_0000), 0x20, 0x4000)

  // The first form that matches.
  function FormOf(word: nat): Option<BranchForm> {
    if B_FORM.matcher.Matches(word) then Some(B_FORM)
    else if BCOND_FORM.matcher.Matches(word) then Some(BCOND_FORM)
    else if CBZ_FORM.matcher.Matches(word) then Some(CBZ_FORM)
    else if TBZ_FORM.matcher.Matches(word) then Some(TBZ_FORM)
    else None
  }

  predicate IsForm(form: BranchForm) {
    form == B_FORM || form == BCOND_FORM || form == CBZ_FORM || form == TBZ_FORM
  }

  // The 32-bit two's complement reading of an integer.
  function ToInt32(x: int): int {
    (x + 0x8000_0000) % WORD - 0x8000_0000
  }

  // Sign extension by shifting the top of the field to the top of the word and back; the
  // last two bits of the shift back are left out, which scales the field by four.
  function ExtractDisplacement(word: nat, form: BranchForm): int
    requires IsForm(form)
  {
    ToInt32((ToInt32(word) / form.unit) * (WORD / form.span)) / (0x4000_0000 / form.span)
  }

  function Field(word: nat, form: BranchForm): nat
    requires IsForm(form)
  {
    word / form.unit % form.span
  }

  // The bits of the field.
  function FieldMask(form: BranchForm): (mask: nat)
    requires IsForm(form)
    ensures mask < WORD
  {
    (form.span - 1) * form.unit
  }

  // The displacement, a 32-bit integer, shifted right by two and then to its place in a word.
  function Placed(form: BranchForm, displacement: int): (w: nat)
    requires IsForm(form)
    ensures w < WORD
  {
    ToInt32(displacement) / 4 * form.unit % WORD
  }

  // The bits of the displacement under the mask, and those of the word elsewhere.
  function RewriteDisplacement(word: nat, form: BranchForm, displacement: int): nat
    requires IsForm(form)
  {
    var mask := FieldMask(form);
    Or(And(word, WORD - 1 - mask), And(Placed(form, displacement), mask))
  }

  // Masking a word keeps its field.
  lemma MaskedField(word: nat, form: BranchForm)
    requires IsForm(form)
    ensures And(word, FieldMask(form)) == Field(word, form) * form.unit
  {
    Powers();
    if form.span == 0x400_0000 {
      LowMask(word, 26);
    } else {
      ShiftedMask(word, if form.span == 0x8_0000 then 19 else 14, form.span);
    }
  }

  lemma ShiftByFive(x: nat)
    ensures ShiftRight(x, 5) == x / 0x20 && ShiftLeft(x, 5) == 0x20 * x
  {
    ShiftByFour(x, 1);
    assert ShiftRight(x / 16, 1) == ShiftRight(x / 16 / 2, 0) && ShiftLeft(16 * x, 1) == ShiftLeft(32 * x, 0);
  }

  lemma ShiftedMask(word: nat, width: nat, span: nat)
    requires span == Pow2(width)
    ensures And(word, (span - 1) * 0x20) == word / 0x20 % span * 0x20
  {
    AndHigh(word, 5, span - 1);
    ShiftByFive(word);
    ShiftByFive(span - 1);
    LowMask(word / 0x20, width);
    ShiftByFive(word / 0x20 % span);
  }

  lemma Placed26(q: int)
    ensures (q * 1 % WORD) / 1 % 0x400_0000 == q % 0x400_0000
  {
    assert q % WORD % 0x400_0000 == q % 0x400_0000;
  }

  // What wraps around is a multiple of the span of the field.
  lemma Placed5(q: int, span: nat, turns: nat)
    requires span > 0 && turns * span == 0x800_0000
    ensures (q * 0x20 % WORD) / 0x20 % span == q % span
  {
    var k := q * 0x20 / WORD;
    assert q * 0x20 % WORD == 0x20 * (q - k * 0x800_0000);
    assert k * 0x800_0000 == k * turns * span;
    assert q - k * 0x800_0000 == (q / span - k * turns) * span + q % span;
    RemainderIs(q - k * 0x800_0000, span, q / span - k * turns, q % span);
  }

  lemma PlacedField(form: BranchForm, d: int)
    requires IsForm(form)
    ensures Field(Placed(form, d), form) == (ToInt32(d) / 4) % form.span
  {
    if form.span == 0x400_0000 {
      Placed26(ToInt32(d) / 4);
    } else if form.span == 0x8_0000 {
      Placed5(ToInt32(d) / 4, 0x8_0000, 0x100);
    } else {
      Placed5(ToInt32(d) / 4, 0x4000, 0x2000);
    }
  }

  // The two masks amount to exchanging the field.
  lemma RewriteExchangesField(word: nat, form: BranchForm, d: int)
    requires IsForm(form) && word < WORD
    ensures RewriteDisplacement(word, form, d) ==
            word - Field(word, form) * form.unit + (ToInt32(d) / 4) % form.span * form.unit
  {
    Powers();
    Merged(32, word, Placed(form, d), FieldMask(form));
    MaskedField(word, form);
    MaskedField(Placed(form, d), form);
    PlacedField(form, d);
  }

  lemma Wrapped(q: int, r: int)
    requires 0 <= r < WORD
    ensures ToInt32(q * WORD + r) == if r < 0x8000_0000 then r else r - WORD
  {
    if r < 0x8000_0000 {
      assert (q * WORD + (r + 0x8000_0000)) % WORD == r + 0x8000_0000;
    } else {
      assert q * WORD + (r + 0x8000_0000) == (q + 1) * WORD + (r - 0x8000_0000);
      assert ((q + 1) * WORD + (r - 0x8000_0000)) % WORD == r - 0x8000_0000;
    }
  }

  lemma Extract26(word: nat)
    requires word < WORD
    ensures var f := word / 1 % 0x4000000;
            ToInt32((ToInt32(word) / 1) * 0x40) / 0x10 == 4 * (if f < 0x2000000 then f else f - 0x4000000)
  {
    var x := ToInt32(word) / 1;
    var f := word / 1 % 0x4000000;
    assert ToInt32(word) == word || ToInt32(word) == word - WORD;
    assert x == word / 1 || x == word / 1 - 0x100000000;
    assert x % 0x4000000 == f;
    var q := x / 0x4000000;
    assert x * 0x40 == q * WORD + f * 0x40;
    Wrapped(q, f * 0x40);
  }

  lemma Extract19(word: nat)
    requires word < WORD
    ensures var f := word / 0x20 % 0x80000;
            ToInt32((ToInt32(word) / 0x20) * 0x2000) / 0x800 == 4 * (if f < 0x40000 then f else f - 0x80000)
  {
    var x := ToInt32(word) / 0x20;
    var f := word / 0x20 % 0x80000;
    assert ToInt32(word) == word || ToInt32(word) == word - WORD;
    assert x == word / 0x20 || x == word / 0x20 - 0x8000000;
    assert x % 0x80000 == f;
    var q := x / 0x80000;
    assert x * 0x2000 == q * WORD + f * 0x2000;
    Wrapped(q, f * 0x2000);
  }

  lemma Extract14(word: nat)
    requires word < WORD
    ensures var f := word / 0x20 % 0x4000;
            ToInt32((ToInt32(word) / 0x20) * 0x40000) / 0x10000 == 4 * (if f < 0x2000 then f else f - 0x4000)
  {
    var x := ToInt32(word) / 0x20;
    var f := word / 0x20 % 0x4000;
    assert ToInt32(word) == word || ToInt32(word) == word - WORD;
    assert x == word / 0x20 || x == word / 0x20 - 0x8000000;
    assert x % 0x4000 == f;
    var q := x / 0x4000;
    assert x * 0x40000 == q * WORD + f * 0x40000;
    Wrapped(q, f * 0x40000);
  }

  // What the extraction computes: four times the field, read as a signed number.
  lemma ExtractIsSignedField(word: nat, form: BranchForm)
    requires IsForm(form) && word < WORD
    ensures var f := Field(word, form);
            ExtractDisplacement(word, form) == 4 * (if f < form.span / 2 then f else f - form.span)
  {
    if form.span == 0x400_0000 {
      Extract26(word);
    } else if form.span == 0x8_0000 {
      Extract19(word);
    } else {
      Extract14(word);
    }
  }

  // Rewriting replaces the field and no other bit.
  lemma RewriteReplacesField(word: nat, form: BranchForm, d: int)
    requires IsForm(form) && word < WORD
    ensures var r := RewriteDisplacement(word, form, d);
            && r < WORD
            && Field(r, form) == (ToInt32(d) / 4) % form.span
            && r / (form.unit * form.span) == word / (form.unit * form.span)
            && r % form.unit == word % form.unit
  {
    RewriteExchangesField(word, form, d);
    if form.span == 0x400_0000 {
      Replace26(word, (ToInt32(d) / 4) % form.span);
    } else if form.span == 0x8_0000 {
      Replace19(word, (ToInt32(d) / 4) % form.span);
    } else {
      Replace14(word, (ToInt32(d) / 4) % form.span);
    }
  }

  lemma Replace26(word: nat, f: nat)
    requires word < WORD && f < 0x4000000
    ensures var r := word - word / 1 % 0x4000000 * 1 + f * 1;
            && 0 <= r < WORD && r / 1 % 0x4000000 == f
            && r / 0x4000000 == word / 0x4000000 && r % 1 == word % 1
  {
    var top, low := word / 0x4000000, word % 1;
    assert word == top * 0x4000000 + word / 1 % 0x4000000 * 1 + low;
  }

  lemma Replace19(word: nat, f: nat)
    requires word < WORD && f < 0x80000
    ensures var r := word - word / 0x20 % 0x80000 * 0x20 + f * 0x20;
            && 0 <= r < WORD && r / 0x20 % 0x80000 == f
            && r / 0x1000000 == word / 0x1000000 && r % 0x20 == word % 0x20
  {
    var top, low := word / 0x1000000, word % 0x20;
    assert word == top * 0x1000000 + word / 0x20 % 0x80000 * 0x20 + low;
  }

  lemma Replace14(word: nat, f: nat)
    requires word < WORD && f < 0x4000
    ensures var r := word - word / 0x20 % 0x4000 * 0x20 + f * 0x20;
            && 0 <= r < WORD && r / 0x20 % 0x4000 == f
            && r / 0x80000 == word / 0x80000 && r % 0x20 == word % 0x20
  {
    var top, low := word / 0x80000, word % 0x20;
    assert word == top * 0x80000 + word / 0x20 % 0x4000 * 0x20 + low;
    Joined14(top, f, low);
  }

  lemma Joined14(top: nat, f: nat, low: nat)
    requires f < 0x4000 && low < 0x20
    ensures var r := top * 0x80000 + f * 0x20 + low;
            r / 0x20 % 0x4000 == f && r / 0x80000 == top && r % 0x20 == low
  {
    assert (top * 0x80000 + f * 0x20 + low) / 0x20 == top * 0x4000 + f;
  }

  lemma SignedField26(d: int)
    ensures var f := (ToInt32(d) / 4) % 0x4000000;
            4 * (if f < 0x2000000 then f else f - 0x4000000) == d <==> d % 4 == 0 && -0x8000000 <= d < 0x8000000
  {
    if -0x8000000 <= d < 0x8000000 {
      assert ToInt32(d) == d;
      var q := d / 4;
      assert q % 0x4000000 == if q >= 0 then q else q + 0x4000000;
    }
  }

  lemma SignedField19(d: int)
    ensures var f := (ToInt32(d) / 4) % 0x80000;
            4 * (if f < 0x40000 then f else f - 0x80000) == d <==> d % 4 == 0 && -0x100000 <= d < 0x100000
  {
    if -0x100000 <= d < 0x100000 {
      assert ToInt32(d) == d;
      var q := d / 4;
      assert q % 0x80000 == if q >= 0 then q else q + 0x80000;
    }
  }

  lemma SignedField14(d: int)
    ensures var f := (ToInt32(d) / 4) % 0x4000;
            4 * (if f < 0x2000 then f else f - 0x4000) == d <==> d % 4 == 0 && -0x8000 <= d < 0x8000
  {
    if -0x8000 <= d < 0x8000 {
      assert ToInt32(d) == d;
      var q := d / 4;
      assert q % 0x4000 == if q >= 0 then q else q + 0x4000;
    }
  }

  // Encoding succeeds exactly for the multiples of four in the range of the field.
  lemma EncodableIff(word: nat, form: BranchForm, d: int)
    requires IsForm(form) && word < WORD
    ensures var r := RewriteDisplacement(word, form, d);
            ExtractDisplacement(r, form) == d <==> d % 4 == 0 && -2 * form.span <= d < 2 * form.span
  {
    RewriteReplacesField(word, form, d);
    ExtractIsSignedField(RewriteDisplacement(word, form, d), form);
    if form.span == 0x400_0000 {
      SignedField26(d);
    } else if form.span == 0x8_0000 {
      SignedField19(d);
    } else {
      SignedField14(d);
    }
  }

  lemma SameTopByte(x: nat, y: nat)
    requires x / 0x100_0000 == y / 0x100_0000
    ensures FormOf(x) == FormOf(y)
  {
    TopMasks(x, y);
  }

  lemma TopMasks(x: nat, y: nat)
    requires x / 0x100_0000 == y / 0x100_0000
    ensures And(x, 0xFF00_0000) == And(y, 0xFF00_0000)
    ensures And(x, 0x7E00_0000) == And(y, 0x7E00_0000)
    ensures And(x, 0x7C00_0000) == And(y, 0x7C00_0000)
  {
    HighMask(x, y, 0, 0xFF);
    HighMask(x, y, 0, 0x7E);
    HighMask(x, y, 0, 0x7C);
    assert ShiftLeft(0xFF00_0000, 0) == 0xFF00_0000;
    assert ShiftLeft(0x7E00_0000, 0) == 0x7E00_0000;
    assert ShiftLeft(0x7C00_0000, 0) == 0x7C00_0000;
  }

  lemma TopSixBits(x: nat, y: nat)
    requires x / 0x400_0000 == y / 0x400_0000
    ensures And(x, 0x7C00_0000) == And(y, 0x7C00_0000)
  {
    assert x / 0x100_0000 / 2 / 2 == x / 0x400_0000 && y / 0x100_0000 / 2 / 2 == y / 0x400_0000;
    HighMask(x, y, 2, 0x1F);
    assert ShiftLeft(0x1F00_0000, 2) == 0x7C00_0000;
  }

  // A rewritten branch is a branch of the same form.
  lemma RewriteKeepsForm(word: nat, d: int)
    requires word < WORD && FormOf(word).Some?
    ensures FormOf(RewriteDisplacement(word, FormOf(word).value, d)) == FormOf(word)
  {
    var form := FormOf(word).value;
    var r := RewriteDisplacement(word, form, d);
    RewriteReplacesField(word, form, d);
    if form == B_FORM {
      TopSixBits(r, word);
    } else {
      SameTopOfField(r, word, form.unit * form.span);
      SameTopByte(r, word);
    }
  }

  lemma SameTopOfField(x: nat, y: nat, n: nat)
    requires n == 0x100_0000 || n == 0x8_0000
    requires x / n == y / n
    ensures x / 0x100_0000 == y / 0x100_0000
  {
    if n == 0x8_0000 {
      assert x / 0x8_0000 / 0x20 == x / 0x100_0000 && y / 0x8_0000 / 0x20 == y / 0x100_0000;
    }
  }

  // Rewriting forgets the displacement that was there.
  lemma RewriteTwice(word: nat, form: BranchForm, d: int, e: int)
    requires IsForm(form) && word < WORD
    ensures RewriteDisplacement(RewriteDisplacement(word, form, d), form, e) == RewriteDisplacement(word, form, e)
  {
    RewriteReplacesField(word, form, d);
    RewriteExchangesField(word, form, d);
    RewriteExchangesField(word, form, e);
    RewriteExchangesField(RewriteDisplacement(word, form, d), form, e);
  }

  lemma MatcherFixesBits(m: BitMatcher, word: nat)
    requires m.Matches(word)
    ensures BitOf(m.bits, BIT26) == BitOf(word, BIT26) * BitOf(m.mask, BIT26)
    ensures BitOf(m.bits, BIT27) == BitOf(word, BIT27) * BitOf(m.mask, BIT27)
    ensures BitOf(m.bits, BIT28) == BitOf(word, BIT28) * BitOf(m.mask, BIT28)
    ensures BitOf(m.bits, BIT30) == BitOf(word, BIT30) * BitOf(m.mask, BIT30)
    ensures BitOf(m.bits, BIT31) == BitOf(word, BIT31) * BitOf(m.mask, BIT31)
  {
    MatchedBit26(m, word);
    MatchedBit27(m, word);
    MatchedBit28(m, word);
    MatchedBit30(m, word);
    MatchedBit31(m, word);
  }

  // A matcher that only matches words of the branch group.
  predicate InsideBranchGroup(m: BitMatcher) {
    && BitOf(m.mask, BIT28) == 1 && BitOf(m.bits, BIT28) == 1
    && BitOf(m.mask, BIT27) == 1 && BitOf(m.bits, BIT27) == 0
    && BitOf(m.mask, BIT26) == 1 && BitOf(m.bits, BIT26) == 1
    && (|| (BitOf(m.mask, BIT31) == 1 && BitOf(m.bits, BIT31) == 0)
        || (BitOf(m.mask, BIT30) == 1 && BitOf(m.bits, BIT30) == 0))
  }

  lemma FormsInside(form: BranchForm)
    requires IsForm(form)
    ensures InsideBranchGroup(form.matcher)
  {
    assert InsideBranchGroup(B_FORM.matcher) && InsideBranchGroup(BCOND_FORM.matcher);
    assert InsideBranchGroup(CBZ_FORM.matcher) && InsideBranchGroup(TBZ_FORM.matcher);
  }

  lemma BranchInGroup(word: nat, m: BitMatcher)
    requires InsideBranchGroup(m) && m.Matches(word)
    ensures InBranchGroup(word)
  {
    MatcherFixesBits(m, word);
  }

  // Every direct branch passes the filter, whatever its displacement.
  lemma BranchesPassFilter(word: nat, config: FilterConfig)
    requires FormOf(word).Some?
    ensures InstructionIsOk(word, config)
  {
    FormsInside(FormOf(word).value);
    BranchInGroup(word, FormOf(word).value.matcher);
    BranchGroupIsOk(word, config);
  }

  function Assemble(b0: int, b1: int, b2: int, b3: int): int {
    b0 + 0x100 * b1 + 0x1_0000 * b2 + 0x100_0000 * b3
  }

  // The little-endian word at the front of the bytes.
  function WordOf(bytes: seq<Byte>): (w: nat)
    requires |bytes| >= 4
    ensures w < WORD
  {
    Assemble(bytes[0], bytes[1], bytes[2], bytes[3])
  }

  function ByteAt(word: nat, unit: nat): Byte
    requires unit > 0
  {
    var b: int := word / unit % 256;
    b
  }

  function BytesOfWord(word: nat): (bytes: seq<Byte>)
    ensures |bytes| == 4
  {
    [ByteAt(word, 1), ByteAt(word, 0x100), ByteAt(word, 0x1_0000), ByteAt(word, 0x100_0000)]
  }

  lemma WordOfBytes(word: nat)
    requires word < WORD
    ensures WordOf(BytesOfWord(word)) == word
  {
    var b0, b1, b2, b3 := word % 256, word / 0x100 % 256, word / 0x1_0000 % 256, word / 0x100_0000 % 256;
    assert word / 0x100 == word / 0x100 % 256 + 0x100 * (word / 0x1_0000);
    assert word / 0x1_0000 == word / 0x1_0000 % 256 + 0x100 * (word / 0x100_0000);
    assert b3 == word / 0x100_0000;
    assert Assemble(b0, b1, b2, b3) == word;
    assert BytesOfWord(word) == [b0, b1, b2, b3];
  }

  const DEFAULT_FILTER := FilterConfig(true, true)

  // The displacement of an instruction, if it is a direct branch.
  function Displacement(bytes: seq<Byte>): Option<int> {
    if |bytes| == 4 && FormOf(WordOf(bytes)).Some? then
      Some(ExtractDisplacement(WordOf(bytes), FormOf(WordOf(bytes)).value))
    else None
  }

  // The bytes left by an attempt to re-encode a branch.  Other instructions are never re-encoded.
  function Reencode(bytes: seq<Byte>, d: int): (r: seq<Byte>) {
    if |bytes| == 4 && FormOf(WordOf(bytes)).Some? then
      BytesOfWord(RewriteDisplacement(WordOf(bytes), FormOf(WordOf(bytes)).value, d))
    else bytes
  }

  // InstructionFromBytes.  `disassembles` is the verdict of the disassembler on a word.
  function Decode(disassembles: nat -> bool, cfg: Config, bytes: seq<Byte>): Outcome {
    if |bytes| < 4 then Rejected(0)
    else
      var word := WordOf(bytes);
      if cfg.requireValidEncoding && !disassembles(word) then Rejected(4)
      else if cfg.filter && !InstructionIsOk(word, DEFAULT_FILTER) then Rejected(4)
      else Accepted(4, Limited(Displacement(bytes[..4]), cfg.fixupLimit))
  }

  function Instance(disassembles: nat -> bool): Arch {
    Arch(4, 4, 4,
         (cfg: Config, bytes: seq<Byte>) => Decode(disassembles, cfg, bytes),
         (bytes: seq<Byte>) => Displacement(bytes),
         (bytes: seq<Byte>, d: int) => Reencode(bytes, d))
  }

  // Re-encoding at the level of bytes.
  lemma ReencodedBranch(bytes: seq<Byte>, d: int)
    requires Displacement(bytes).Some?
    ensures var word, form := WordOf(bytes), FormOf(WordOf(bytes)).value;
            var r := Reencode(bytes, d);
            && |r| == 4
            && WordOf(r) == RewriteDisplacement(word, form, d)
            && FormOf(WordOf(r)) == Some(form)
            && Displacement(r).Some?
            && (Displacement(r) == Some(d) <==> d % 4 == 0 && -2 * form.span <= d < 2 * form.span)
  {
    var word, form := WordOf(bytes), FormOf(WordOf(bytes)).value;
    RewriteReplacesField(word, form, d);
    WordOfBytes(RewriteDisplacement(word, form, d));
    RewriteKeepsForm(word, d);
    EncodableIff(word, form, d);
  }

  lemma RewrittenBytes(bytes: seq<Byte>, word: nat, form: BranchForm, d: int)
    requires |bytes| == 4 && WordOf(bytes) == word && FormOf(word) == Some(form)
    ensures IsForm(form) && Reencode(bytes, d) == BytesOfWord(RewriteDisplacement(word, form, d))
  {
  }

  lemma ReencodedTwice(bytes: seq<Byte>, d: int, e: int)
    requires Displacement(bytes).Some?
    ensures Reencode(Reencode(bytes, d), e) == Reencode(bytes, e)
  {
    var word, form := WordOf(bytes), FormOf(WordOf(bytes)).value;
    ReencodedBranch(bytes, d);
    RewrittenBytes(bytes, word, form, e);
    RewrittenBytes(Reencode(bytes, d), RewriteDisplacement(word, form, d), form, e);
    RewriteTwice(word, form, d, e);
  }

  // The AArch64 instance meets the laws, with any disassembler.
  lemma InstanceLawful(disassembles: nat -> bool)
    ensures Lawful(Instance(disassembles))
  {
    var arch := Instance(disassembles);
    forall bytes: seq<Byte>, d: int | IsBranch(arch, bytes) ensures ReencodesWell(arch, bytes, d) {
      ReencodedBranch(bytes, d);
      forall e: int
        ensures |arch.reencode(arch.reencode(bytes, d), e)| == |arch.reencode(bytes, d)|
        ensures arch.reencode(bytes, e) == arch.reencode(arch.reencode(bytes, d), e)
      {
        ReencodedTwice(bytes, d, e);
        ReencodedBranch(bytes, e);
      }
    }
    forall bytes: seq<Byte> | IsBranch(arch, bytes) ensures ReachesItself(arch, bytes) {
      ReencodedBranch(bytes, 0);
    }
  }

  lemma AlignedIsMultiple(arch: Arch, d: int)
    requires arch.minSize == arch.maxSize == 4 && Aligned(arch, d)
    ensures d % 4 == 0
  {
    var a: nat, b: nat :| Apart(arch, d, a, b);
    SpanIsProduct(arch, a);
    SpanIsProduct(arch, b);
    assert d == 4 * (a - b);
  }

  lemma NearEncodable(bytes: seq<Byte>, d: int)
    requires Displacement(bytes).Some? && d % 4 == 0 && Magnitude(d) <= 0x7FFC
    ensures Displacement(Reencode(bytes, d)) == Some(d)
  {
    var form := FormOf(WordOf(bytes)).value;
    assert form.span >= 0x4000;
    ReencodedBranch(bytes, d);
  }

  // Programs of up to 32 KiB keep all their targets: every displacement in them can be encoded.
  lemma InstanceReaches(disassembles: nat -> bool)
    ensures Reaches(Instance(disassembles), 0x7FFC)
  {
    var arch := Instance(disassembles);
    forall bytes: seq<Byte>, d: int | IsBranch(arch, bytes) && Magnitude(d) <= 0x7FFC && Aligned(arch, d)
      ensures ReachesBy(arch, 0x7FFC, bytes, d)
    {
      AlignedIsMultiple(arch, d);
      NearEncodable(bytes, d);
    }
  }

  // The disassembler accepts or rejects a branch without regard to its displacement.
  ghost predicate IgnoresDisplacement(disassembles: nat -> bool) {
    forall word: nat, d: int :: word < WORD && FormOf(word).Some? && disassembles(word) ==>
      disassembles(RewriteDisplacement(word, FormOf(word).value, d))
  }

  // A branch is only rejected by the disassembler.
  lemma BranchAccepted(disassembles: nat -> bool, cfg: Config, bytes: seq<Byte>)
    requires Displacement(bytes).Some? && (cfg.requireValidEncoding ==> disassembles(WordOf(bytes)))
    ensures Decode(disassembles, cfg, bytes) == Accepted(4, Limited(Displacement(bytes), cfg.fixupLimit))
  {
    BranchesPassFilter(WordOf(bytes), DEFAULT_FILTER);
    assert bytes[..4] == bytes;
  }

  lemma StillDisassembles(disassembles: nat -> bool, bytes: seq<Byte>, d: int)
    requires IgnoresDisplacement(disassembles) && Displacement(bytes).Some? && disassembles(WordOf(bytes))
    ensures disassembles(WordOf(Reencode(bytes, d)))
  {
    var word, form := WordOf(bytes), FormOf(WordOf(bytes)).value;
    ReencodedBranch(bytes, d);
    assert disassembles(RewriteDisplacement(word, form, d));
  }

  lemma DecodeReencoded(disassembles: nat -> bool, cfg: Config, bytes: seq<Byte>, d: int)
    requires IgnoresDisplacement(disassembles) && Displacement(bytes).Some?
    requires Decode(disassembles, cfg, bytes).Accepted?
    ensures Decode(disassembles, cfg, Reencode(bytes, d)).Accepted?
  {
    if cfg.requireValidEncoding {
      StillDisassembles(disassembles, bytes, d);
    }
    ReencodedBranch(bytes, d);
    BranchAccepted(disassembles, cfg, Reencode(bytes, d));
  }

  lemma ExtractBounded(word: nat, form: BranchForm)
    requires IsForm(form) && word < WORD
    ensures -0x800_0000 <= ExtractDisplacement(word, form) < 0x800_0000
  {
    ExtractIsSignedField(word, form);
  }

  lemma InstanceReparsable(disassembles: nat -> bool)
    requires IgnoresDisplacement(disassembles)
    ensures Reparsable(Instance(disassembles))
  {
    var arch := Instance(disassembles);
    forall cfg: Config, bytes: seq<Byte>, rest: seq<Byte>
      ensures LooksNoFurther(arch, cfg, bytes, rest)
    {
      if Whole(arch, cfg, bytes) {
        assert (bytes + rest)[..4] == bytes[..4];
      }
    }
    forall cfg: Config, bytes: seq<Byte> ensures LooksNoNearer(arch, cfg, bytes) {
      if |bytes| >= 4 { assert bytes[..4][..4] == bytes[..4]; }
    }
    forall cfg: Config, bytes: seq<Byte>, d: int ensures StaysWhole(arch, cfg, bytes, d) {
      if Whole(arch, cfg, bytes) && IsBranch(arch, bytes) {
        DecodeReencoded(disassembles, cfg, bytes, d);
        ReencodedBranch(bytes, d);
      }
    }
    forall bytes: seq<Byte> ensures FitsWord(arch, bytes) {
      if Displacement(bytes).Some? {
        ExtractBounded(WordOf(bytes), FormOf(WordOf(bytes)).value);
      }
    }
  }

  // The table of branches, in numbers: which words are branches of which kind.

  lemma MaskTop8(word: nat, m: nat)
    requires m == 0xFF
    ensures And(word, 0x100_0000 * m) == 0x100_0000 * (word / 0x100_0000 % 0x100)
  {
    AndTop(word, m);
    SmallPowers();
    LowMask(word / 0x100_0000, 8);
  }

  lemma MaskTop6(word: nat, m: nat)
    requires m == 0x3F
    ensures And(word, 0x100_0000 * (2 * m)) == 0x200_0000 * (word / 0x200_0000 % 0x40)
  {
    AndTop(word, 2 * m);
    AndEven(word / 0x100_0000, m);
    assert word / 0x100_0000 / 2 == word / 0x200_0000;
    SmallPowers();
    LowMask(word / 0x200_0000, 6);
  }

  lemma MaskTop5(word: nat, m: nat)
    requires m == 0x1F
    ensures And(word, 0x100_0000 * (2 * (2 * m))) == 0x400_0000 * (word / 0x400_0000 % 0x20)
  {
    AndTop(word, 2 * (2 * m));
    AndEven(word / 0x100_0000, 2 * m);
    AndEven(word / 0x100_0000 / 2, m);
    assert word / 0x100_0000 / 2 / 2 == word / 0x400_0000;
    SmallPowers();
    LowMask(word / 0x400_0000, 5);
  }

  lemma SmallPowers()
    ensures Pow2(5) == 0x20 && Pow2(6) == 0x40 && Pow2(8) == 0x100
  {
    PowByFour(1);
    PowByFour(2);
    PowByFour(4);
    PowByFour(0);
  }

  // b.cond and bc.cond, or cbz and cbnz.
  predicate HasField19(w: nat) {
    w / 0x100_0000 == 0x54 || w / 0x200_0000 % 0x40 == 0x1A
  }

  // tbz and tbnz.
  predicate HasField14(w: nat) {
    w / 0x200_0000 % 0x40 == 0x1B
  }

  // b and bl.
  predicate HasField26(w: nat) {
    w / 0x400_0000 % 0x20 == 5
  }

  lemma FormByClass(w: nat)
    requires w < WORD
    ensures HasField19(w) <==> FormOf(w) == Some(BCOND_FORM) || FormOf(w) == Some(CBZ_FORM)
    ensures HasField14(w) <==> FormOf(w) == Some(TBZ_FORM)
    ensures HasField26(w) <==> FormOf(w) == Some(B_FORM)
  {
    MaskTop8(w, 0xFF);
    MaskTop6(w, 0x3F);
    MaskTop5(w, 0x1F);
    ClassesApart(w);
  }

  lemma ClassesApart(w: nat)
    requires w < WORD
    ensures w / 0x200_0000 % 0x40 == 0x1A || w / 0x200_0000 % 0x40 == 0x1B ==> w / 0x400_0000 % 0x20 == 0xD
    ensures w / 0x100_0000 == 0x54 ==> w / 0x200_0000 % 0x40 == 0x2A && w / 0x400_0000 % 0x20 == 0x15
    ensures w / 0x100_0000 % 0x100 == w / 0x100_0000
  {
    assert w / 0x400_0000 == w / 0x200_0000 / 2 && w / 0x200_0000 == w / 0x100_0000 / 2;
  }

  // A field as a signed number.
  function Signed(field: nat, span: nat): int {
    if field < span / 2 then field else field - span
  }

  function Word(b0: Byte, b1: Byte, b2: Byte, b3: Byte): nat {
    b0 + 0x100 * b1 + 0x1_0000 * b2 + 0x100_0000 * b3
  }

  // The displacement of every instruction: four times the signed value of the 26 bits from bit 0, of
  // the 19 bits from bit 5 or of the 14 bits from bit 5, whichever the kind of branch has.
  lemma DisplacementIs(b0: Byte, b1: Byte, b2: Byte, b3: Byte)
    ensures var w := Word(b0, b1, b2, b3);
            Displacement([b0, b1, b2, b3]) ==
            if w / 0x400_0000 % 0x20 == 5 then Some(4 * Signed(w % 0x400_0000, 0x400_0000))
            else if w / 0x100_0000 == 0x54 || w / 0x200_0000 % 0x40 == 0x1A then
              Some(4 * Signed(w / 0x20 % 0x8_0000, 0x8_0000))
            else if w / 0x200_0000 % 0x40 == 0x1B then Some(4 * Signed(w / 0x20 % 0x4000, 0x4000))
            else None
  {
    var w := Word(b0, b1, b2, b3);
    assert WordOf([b0, b1, b2, b3]) == w;
    FormByClass(w);
    if FormOf(w).Some? {
      ExtractIsSignedField(w, FormOf(w).value);
    }
  }

  // Only the bits of the field change, and they become the displacement divided by four.
  ghost predicate FieldReplaced(w: nat, v: nat, unit: nat, span: nat, d: int)
    requires unit > 0 && span > 0
  {
    v / (unit * span) == w / (unit * span) && v % unit == w % unit && v / unit % span == d / 4 % span
  }

  // What re-encoding does to every instruction, and when it succeeds.
  lemma ReencodeIs(b0: Byte, b1: Byte, b2: Byte, b3: Byte, d: int)
    ensures var w := Word(b0, b1, b2, b3);
            var r := Reencode([b0, b1, b2, b3], d);
            && |r| == 4
            && var v := Word(r[0], r[1], r[2], r[3]);
            && (w / 0x400_0000 % 0x20 == 5 ==>
                  && FieldReplaced(w, v, 1, 0x400_0000, d)
                  && (Displacement(r) == Some(d) <==> d % 4 == 0 && -0x800_0000 <= d < 0x800_0000))
            && (w / 0x100_0000 == 0x54 || w / 0x200_0000 % 0x40 == 0x1A ==>
                  && FieldReplaced(w, v, 0x20, 0x8_0000, d)
                  && (Displacement(r) == Some(d) <==> d % 4 == 0 && -0x10_0000 <= d < 0x10_0000))
            && (w / 0x200_0000 % 0x40 == 0x1B ==>
                  && FieldReplaced(w, v, 0x20, 0x4000, d)
                  && (Displacement(r) == Some(d) <==> d % 4 == 0 && -0x8000 <= d < 0x8000))
            && (Displacement([b0, b1, b2, b3]).None? ==> r == [b0, b1, b2, b3])
  {
    var bytes, w := [b0, b1, b2, b3], Word(b0, b1, b2, b3);
    assert WordOf(bytes) == w;
    FormByClass(w);
    if FormOf(w).Some? {
      ReencodedBranch(bytes, d);
      ReplacedField(w, FormOf(w).value, d);
    }
  }

  // Wrapping a displacement to 32 bits does not change its field.
  lemma FieldOf(d: int, span: nat, turns: nat)
    requires span > 0 && turns * span == 0x4000_0000
    ensures (ToInt32(d) / 4) % span == d / 4 % span
  {
    var k := (d + 0x8000_0000) / WORD;
    assert ToInt32(d) == d - k * WORD;
    assert ToInt32(d) / 4 == d / 4 - k * 0x4000_0000;
    assert k * 0x4000_0000 == k * turns * span;
    assert d / 4 - k * 0x4000_0000 == (d / 4 / span - k * turns) * span + d / 4 % span;
    RemainderIs(d / 4 - k * 0x4000_0000, span, d / 4 / span - k * turns, d / 4 % span);
  }

  lemma ReplacedField(w: nat, form: BranchForm, d: int)
    requires IsForm(form) && w < WORD
    ensures FieldReplaced(w, RewriteDisplacement(w, form, d), form.unit, form.span, d)
  {
    RewriteReplacesField(w, form, d);
    if form.span == 0x400_0000 {
      FieldOf(d, 0x400_0000, 0x10);
    } else if form.span == 0x8_0000 {
      FieldOf(d, 0x8_0000, 0x800);
    } else {
      FieldOf(d, 0x4000, 0x1_0000);
    }
  }

  lemma WordIs(bytes: seq<Byte>)
    requires |bytes| >= 4
    ensures WordOf(bytes) == Word(bytes[0], bytes[1], bytes[2], bytes[3])
    ensures bytes[..4] == [bytes[0], bytes[1], bytes[2], bytes[3]]
  {
  }

  // When an instruction is accepted, and which displacement it then has: it must disassemble and pass the
  // filter, where that is asked for, and only a displacement nearer than the limit counts.
  lemma DecodeIs(disassembles: nat -> bool, cfg: Config, bytes: seq<Byte>)
    ensures |bytes| < 4 ==> Instance(disassembles).decode(cfg, bytes) == Rejected(0)
    ensures |bytes| >= 4 ==>
              var w := Word(bytes[0], bytes[1], bytes[2], bytes[3]);
              Instance(disassembles).decode(cfg, bytes) ==
              if cfg.requireValidEncoding && !disassembles(w) then Rejected(4)
              else if cfg.filter && !InstructionIsOk(w, FilterConfig(true, true)) then Rejected(4)
              else
                var d := Displacement([bytes[0], bytes[1], bytes[2], bytes[3]]);
                Accepted(4, if d.Some? && d.value < cfg.fixupLimit && -d.value < cfg.fixupLimit then d else None)
  {
    if |bytes| >= 4 {
      WordIs(bytes);
    }
  }

  lemma ShiftByTwenty(x: nat, k: nat)
    ensures ShiftRight(x, k + 20) == ShiftRight(x / 0x10_0000, k)
    ensures ShiftLeft(x, k + 20) == ShiftLeft(0x10_0000 * x, k)
  {
    ShiftByEight(x, k + 12);
    ShiftByEight(x / 0x100, k + 4);
    ShiftByFour(x / 0x1_0000, k);
    ShiftByEight(0x100 * x, k + 4);
    ShiftByFour(0x1_0000 * x, k);
  }

  lemma AndFrom20(x: nat, m: nat, k: nat)
    requires k == 0
    ensures And(x, 0x10_0000 * m) == 0x10_0000 * And(x / 0x10_0000, m)
  {
    AndHigh(x, k + 20, m);
    ShiftByTwenty(x, k);
    ShiftByTwenty(m, k);
    ShiftByTwenty(And(x / 0x10_0000, m), k);
  }

  lemma AndDigits(x: nat, y: nat, i: nat, j: nat)
    requires i < 2 && j < 2
    ensures And(2 * x + i, 2 * y + j) == 2 * And(x, y) + if i == 1 && j == 1 then 1 else 0
  {
    assert (2 * x + i) / 2 == x && (2 * y + j) / 2 == y;
  }

  lemma EvenPair(x: nat, y: nat)
    ensures And(4 * x, 4 * y + 3) == 4 * And(x, y)
  {
    AndDigits(x, y, 0, 1);
    AndDigits(2 * x, 2 * y + 1, 0, 1);
  }

  lemma OddPair(x: nat, y: nat, b: nat)
    requires b < 2
    ensures And(4 * x + 2 * b + 1, 4 * y + 1) == 4 * And(x, y) + 1
  {
    AndDigits(x, y, b, 0);
    AndDigits(2 * x + b, 2 * y, 1, 1);
  }

  lemma LowNibble(t: nat, b: nat, n: nat, x: nat, y: nat)
    requires b < 2 && x == 4 * t && y == 4 * n + 3
    ensures And(4 * x + 2 * b + 1, 4 * y + 1) == 16 * And(t, n) + 1
  {
    EvenPair(t, n);
    OddPair(x, y, b);
  }

  lemma MovesSystemRegister(w: nat, b: nat, n: nat)
    requires b < 2 && w / 0x10_0000 == 16 * (w / 0x100_0000) + 2 * b + 1 && n == Pow2(8) - 1
    ensures And(w, 0x10_0000 * (16 * n + 13)) == 0x10_0000 * (16 * (w / 0x100_0000 % Pow2(8)) + 1)
  {
    var t, m := w / 0x100_0000, 16 * n + 13;
    AndFrom20(w, m, 0);
    LowNibble(t, b, n, 4 * t, 4 * n + 3);
    LowMask(t, 8);
  }

  // A move to or from a system register passes the filter only for NZCV, FPCR, FPSR, TPIDR_EL0 and TPIDRRO_EL0.
  lemma SystemRegistersAllowed(w: nat, config: FilterConfig)
    requires (w / 0x10_0000 == 0xD51 || w / 0x10_0000 == 0xD53) && InstructionIsOk(w, config)
    ensures w / 0x20 % 0x1_0000 in {0xDA10, 0xDA20, 0xDA21, 0xDE82, 0xDE83}
  {
    var b := if w / 0x10_0000 == 0xD51 then 0 else 1;
    SmallPowers();
    MovesSystemRegister(w, b, Pow2(8) - 1);
    assert SYSREG_INSTRUCTION.Matches(w);
    SixteenBits();
    ShiftedMask(w, 16, 0x1_0000);
  }

  lemma SixteenBits()
    ensures Pow2(16) == 0x1_0000
  {
    PowByFour(12);
    PowByFour(8);
    PowByFour(4);
    PowByFour(0);
  }
}
