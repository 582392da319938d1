/** A disassembler for the two-byte 8086 MOV register/memory-to/from-register form:
    the first byte is `100010dw`, the second `mod reg r/m` (Intel 8086 Family User's
    Manual, chapter 4). Each two-byte chunk is unpacked into six fields, the fields are
    looked up in two fixed tables, and every instruction is printed as
    `mov <r/m register>, <reg register>` in lower case, one per line. */
module Disassembler {
  import opened Bits
  import opened Text

  /** A byte of the instruction stream. */
  type Byte = x: int | 0 <= x < 256

  /** The two Python exceptions the disassembler can raise: indexing past the end of a
      chunk, and a dictionary lookup of a key the table lacks. */
  datatype Error = IndexError | KeyError(key: int)

  datatype Result<T> = Ok(value: T) | Err(error: Error)

  /** The op-code of MOV register/memory to/from register, `0b100010`. */
  const MovOpCode: int := 0x22

  /** `OP_CODES`: the only known op-code is MOV. */
  const OpCodes: map<int, string> := map[MovOpCode := "mov"]

  /** `REGISTERS`: key `w * 8 + selector`, the manual's REG-field encoding; keys 0-7
      name the 8-bit registers (w = 0), keys 8-15 the 16-bit ones (w = 1). */
  const Registers: map<int, string> := map[
    0x0 := "AL", 0x1 := "CL", 0x2 := "DL", 0x3 := "BL",
    0x4 := "AH", 0x5 := "CH", 0x6 := "DH", 0x7 := "BH",
    0x8 := "AX", 0x9 := "CX", 0xA := "DX", 0xB := "BX",
    0xC := "SP", 0xD := "BP", 0xE := "SI", 0xF := "DI"]

  /** `AssembledInstruction`: the six fields of one encoded instruction. */
  datatype AssembledInstruction = AssembledInstruction(
    opCode: int, d: int, w: int, mod: int, reg: int, rm: int)

  /** `DisassembledInstruction`: a mnemonic and its two operands, in printing order. */
  datatype DisassembledInstruction = DisassembledInstruction(
    mnemonic: string, reg1: string, reg2: string)

  /** Every field lies within its bit width. */
  predicate WellFormed(ins: AssembledInstruction)
  {
    && 0 <= ins.opCode < 64 && 0 <= ins.d < 2 && 0 <= ins.w < 2
    && 0 <= ins.mod < 4 && 0 <= ins.reg < 8 && 0 <= ins.rm < 8
  }

  // ---------------------------------------------------------------------------
  // The bit-field extractor

  /** `take(byte, s, e)`: `byte >> e & ((255 << (s - e)) ^ 255)`, the bits [e, s) of
      the byte moved down to bit 0. */
  function Take(b: nat, s: nat, e: nat): nat
    requires e <= s
  {
    BitAnd(ShiftRight(b, e), BitXor(ShiftLeft(ByteOnes, s - e), ByteOnes))
  }

  /** The 255 (eight one-bits) that `take` builds its mask from. */
  const ByteOnes: nat := 255

  /** On a byte, the mask's ones above bit 7 never meet a set bit, so `take` is exactly
      the field `(b / 2^e) % 2^(s-e)`, and below 2^(s-e). */
  lemma TakeIsField(b: Byte, s: nat, e: nat)
    requires e <= s <= 8
    ensures Take(b, s, e) == (b / Pow2(e)) % Pow2(s - e)
    ensures Take(b, s, e) < Pow2(s - e)
  {
    var k := s - e;
    var x, ones := ShiftRight(b, e), Ones(k);
    var mask := BitXor(ShiftLeft(ByteOnes, k), ByteOnes);
    assert x == b / Pow2(e) && x < 256 by {
      ShiftRightIsDiv(b, e);
      DivAtMost(b, Pow2(e));
    }
    assert mask == ones + 256 * ones by {
      FieldMask(k);
    }
    assert mask % 256 == ones by {
      OnesAtMost(k, 8);
      assert Ones(8) == 255;
      DivModUnique(mask, 256, ones, ones);
    }
    assert BitAnd(x, mask) == BitAnd(x, ones) by {
      assert Pow2(8) == 256;
      AndLowBits(x, mask, 8);
    }
    assert BitAnd(x, ones) == x % Pow2(k) by {
      OnesIsPow2(k);
      AndOnes(x, k);
    }
  }

  // ---------------------------------------------------------------------------
  // The instruction decoder

  /** The six `take` calls that unpack one two-byte chunk. */
  function Assemble(b0: Byte, b1: Byte): AssembledInstruction
  {
    AssembledInstruction(
      opCode := Take(b0, 8, 2),
      d := Take(b0, 2, 1),
      w := Take(b0, 1, 0),
      mod := Take(b1, 8, 6),
      reg := Take(b1, 6, 3),
      rm := Take(b1, 3, 0))
  }

  /** The six fields read off a byte pair with arithmetic: bits 7-2, 1 and 0 of the
      first byte, bits 7-6, 5-3 and 2-0 of the second; each lies within its width. */
  function Unpack(b0: Byte, b1: Byte): (ins: AssembledInstruction)
    ensures WellFormed(ins)
  {
    AssembledInstruction(
      opCode := b0 / 4, d := (b0 / 2) % 2, w := b0 % 2,
      mod := b1 / 64, reg := (b1 / 8) % 8, rm := b1 % 8)
  }

  /** The six `take` calls extract exactly those bit ranges. */
  lemma AssembleFields(b0: Byte, b1: Byte)
    ensures Assemble(b0, b1) == Unpack(b0, b1)
  {
    assert Pow2(0) == 1 && Pow2(1) == 2 && Pow2(2) == 4 && Pow2(3) == 8;
    assert Pow2(6) == 64;
    TakeIsField(b0, 8, 2);
    TakeIsField(b0, 2, 1);
    TakeIsField(b0, 1, 0);
    TakeIsField(b1, 8, 6);
    TakeIsField(b1, 6, 3);
    TakeIsField(b1, 3, 0);
    ByteFields(b0, b1);
  }

  /** The arithmetic behind AssembleFields. */
  lemma ByteFields(b0: Byte, b1: Byte)
    ensures (b0 / 4) % 64 == b0 / 4 && (b0 / 1) % 2 == b0 % 2
    ensures (b1 / 64) % 4 == b1 / 64 && (b1 / 1) % 8 == b1 % 8
  {
  }

  /** The two bytes an instruction is encoded in. (The ensures only unfolds the body's
      length for callers; it is no property of the encoding.) */
  function Encode(ins: AssembledInstruction): (r: seq<Byte>)
    requires WellFormed(ins)
    ensures |r| == 2
  {
    [ins.opCode * 4 + ins.d * 2 + ins.w, ins.mod * 64 + ins.reg * 8 + ins.rm]
  }

  /** Re-encoding the fields of a byte pair gives the pair back. */
  lemma EncodeUnpack(b0: Byte, b1: Byte)
    ensures Encode(Unpack(b0, b1)) == [b0, b1]
  {
    var h0, h1 := b0 / 2, b1 / 8;
    assert b0 == 2 * h0 + b0 % 2 && h0 == 2 * (h0 / 2) + h0 % 2;
    assert b1 == 8 * h1 + b1 % 8 && h1 == 8 * (h1 / 8) + h1 % 8;
    DivModUnique(b0, 4, h0 / 2, 2 * (h0 % 2) + b0 % 2);
    DivModUnique(b1, 64, h1 / 8, 8 * (h1 % 8) + b1 % 8);
  }

  /** No two byte pairs share their fields: the fields determine the bytes. */
  lemma UnpackInjective(a0: Byte, a1: Byte, b0: Byte, b1: Byte)
    requires Unpack(a0, a1) == Unpack(b0, b1)
    ensures a0 == b0 && a1 == b1
  {
    EncodeUnpack(a0, a1);
    EncodeUnpack(b0, b1);
  }

  /** Unpacking the encoding of a well-formed instruction gives it back: with
      EncodeUnpack, Unpack and Encode are mutually inverse. */
  lemma UnpackEncode(ins: AssembledInstruction)
    requires WellFormed(ins)
    ensures Unpack(Encode(ins)[0], Encode(ins)[1]) == ins
  {
    var e := Encode(ins);
    DivModUnique(e[0], 4, ins.opCode, ins.d * 2 + ins.w);
    DivModUnique(e[0], 2, ins.opCode * 2 + ins.d, ins.w);
    DivModUnique(e[0] / 2, 2, ins.opCode, ins.d);
    DivModUnique(e[1], 64, ins.mod, ins.reg * 8 + ins.rm);
    DivModUnique(e[1], 8, ins.mod * 8 + ins.reg, ins.rm);
    DivModUnique(e[1] / 8, 8, ins.mod, ins.reg);
  }

  /** The consecutive slices `binary[2i .. 2i+2]`, the last one cut short at the end of
      the stream: an odd-length stream ends in a one-byte chunk. */
  function Chunks(binary: seq<Byte>): seq<seq<Byte>>
  {
    seq((|binary| + 1) / 2,
      i requires 0 <= i < (|binary| + 1) / 2 =>
        binary[2 * i .. if 2 * i + 2 <= |binary| then 2 * i + 2 else |binary|])
  }

  /** The chunks, in order, are exactly the stream: all two bytes long except a
      one-byte last chunk when the length is odd. */
  lemma ChunksCover(binary: seq<Byte>)
    ensures |Chunks(binary)| == (|binary| + 1) / 2
    ensures forall i :: 0 <= i < |Chunks(binary)| ==>
      |Chunks(binary)[i]| == (if 2 * i + 1 == |binary| then 1 else 2)
    ensures forall i :: 0 <= i < |Chunks(binary)| ==> Chunks(binary)[i][0] == binary[2 * i]
    ensures forall i :: 0 <= i < |Chunks(binary)| && 2 * i + 1 < |binary| ==>
      Chunks(binary)[i][1] == binary[2 * i + 1]
    ensures Flatten(Chunks(binary)) == binary
  {
    ChunksFlatten(binary);
  }

  /** Past the first two bytes, the chunks are the chunks of the rest. */
  lemma ChunksStep(binary: seq<Byte>)
    requires |binary| >= 2
    ensures Chunks(binary) == [binary[..2]] + Chunks(binary[2..])
  {
    var cs, ts := Chunks(binary), Chunks(binary[2..]);
    assert |cs| == |ts| + 1;
    forall i | 0 <= i < |ts| ensures cs[i + 1] == ts[i] {
      var end := if 2 * i + 2 <= |binary| - 2 then 2 * i + 2 else |binary| - 2;
      assert ts[i] == binary[2..][2 * i .. end];
      assert cs[i + 1] == binary[2 * i + 2 .. end + 2];
    }
  }

  /** The chunks concatenated. */
  function Flatten(chunks: seq<seq<Byte>>): seq<Byte>
  {
    if |chunks| == 0 then [] else chunks[0] + Flatten(chunks[1..])
  }

  lemma {:induction false} ChunksFlatten(binary: seq<Byte>)
    ensures Flatten(Chunks(binary)) == binary
    decreases |binary|
  {
    if |binary| == 1 {
      assert Chunks(binary)[0] == binary[0..1] == binary;
      assert Chunks(binary) == [binary];
    } else if |binary| >= 2 {
      ChunksStep(binary);
      ChunksFlatten(binary[2..]);
      assert binary[..2] + binary[2..] == binary;
    }
  }

  /** One chunk becomes one AssembledInstruction; `binary[1]` raises on a one-byte chunk. */
  function AssembleChunk(chunk: seq<Byte>): Result<AssembledInstruction>
  {
    if |chunk| < 2 then Err(IndexError) else Ok(Assemble(chunk[0], chunk[1]))
  }

  /** `[f(x) for x in xs]` where f may raise: the first raising element aborts it. */
  function MapAll<A, B>(xs: seq<A>, f: A -> Result<B>): Result<seq<B>>
    decreases |xs|
  {
    if |xs| == 0 then Ok([])
    else match f(xs[0])
      case Err(e) => Err(e)
      case Ok(y) =>
        match MapAll(xs[1..], f)
        case Err(e) => Err(e)
        case Ok(ys) => Ok([y] + ys)
  }

  /** Element i is the first one on which f fails. */
  predicate FirstFailure<A, B>(xs: seq<A>, f: A -> Result<B>, i: int)
  {
    0 <= i < |xs| && f(xs[i]).Err? && forall j :: 0 <= j < i ==> f(xs[j]).Ok?
  }

  /** The comprehension succeeds exactly when every element does, and then holds the
      results in order; otherwise it raises what the first failing element raises. */
  lemma {:induction false} MapAllSpec<A, B>(xs: seq<A>, f: A -> Result<B>)
    ensures MapAll(xs, f).Ok? <==> forall i :: 0 <= i < |xs| ==> f(xs[i]).Ok?
    ensures MapAll(xs, f).Ok? ==>
      && |MapAll(xs, f).value| == |xs|
      && forall i :: 0 <= i < |xs| ==> MapAll(xs, f).value[i] == f(xs[i]).value
    ensures MapAll(xs, f).Err? ==>
      exists i :: FirstFailure(xs, f, i) && MapAll(xs, f).error == f(xs[i]).error
    decreases |xs|
  {
    if |xs| > 0 {
      var tail := xs[1..];
      MapAllSpec(tail, f);
      assert forall i :: 1 <= i < |xs| ==> xs[i] == tail[i - 1];
      if f(xs[0]).Err? {
        assert FirstFailure(xs, f, 0);
      } else if MapAll(tail, f).Err? {
        var j :| FirstFailure(tail, f, j) && MapAll(tail, f).error == f(tail[j]).error;
        assert FirstFailure(xs, f, j + 1);
      }
    }
  }

  /** MapAllSpec for a function whose result on each element is known in advance:
      success flags ok, values vals and errors errs. */
  lemma MapAllKnown<A, B>(xs: seq<A>, f: A -> Result<B>, ok: seq<bool>, vals: seq<B>, errs: seq<Error>)
    requires |ok| == |xs| && |vals| == |xs| && |errs| == |xs|
    requires forall i :: 0 <= i < |xs| ==> f(xs[i]) == if ok[i] then Ok(vals[i]) else Err(errs[i])
    ensures MapAll(xs, f).Ok? <==> forall i :: 0 <= i < |xs| ==> ok[i]
    ensures MapAll(xs, f).Err? ==>
      exists i :: 0 <= i < |xs| && !ok[i] && (forall j :: 0 <= j < i ==> ok[j])
                  && MapAll(xs, f).error == errs[i]
    ensures MapAll(xs, f).Ok? ==> MapAll(xs, f).value == vals
  {
    MapAllSpec(xs, f);
    if MapAll(xs, f).Err? {
      var i :| FirstFailure(xs, f, i) && MapAll(xs, f).error == f(xs[i]).error;
      assert !ok[i] && forall j :: 0 <= j < i ==> ok[j];
    } else {
      assert MapAll(xs, f).value == vals;
    }
  }

  /** `get_instructions(binary)`. */
  function GetInstructions(binary: seq<Byte>): Result<seq<AssembledInstruction>>
  {
    MapAll(Chunks(binary), AssembleChunk)
  }

  /** Mapping a chunk function that raises IndexError exactly on short chunks over the
      chunks of a stream: an even-length stream gives one result per byte pair, in
      order; an odd-length one raises IndexError. */
  lemma MapChunks<B>(binary: seq<Byte>, f: seq<Byte> -> Result<B>)
    requires forall c: seq<Byte> :: |c| < 2 ==> f(c) == Err(IndexError)
    requires forall c: seq<Byte> :: |c| == 2 ==> f(c).Ok?
    ensures MapAll(Chunks(binary), f).Ok? <==> |binary| % 2 == 0
    ensures MapAll(Chunks(binary), f).Err? ==> MapAll(Chunks(binary), f).error == IndexError
    ensures MapAll(Chunks(binary), f).Ok? ==>
      && |MapAll(Chunks(binary), f).value| == |binary| / 2
      && forall i :: 0 <= i < |binary| / 2 ==>
           MapAll(Chunks(binary), f).value[i] == f(binary[2 * i .. 2 * i + 2]).value
  {
    var cs := Chunks(binary);
    if |binary| % 2 == 1 {
      var last := |binary| / 2;
      assert 2 * last + 1 == |binary|;
      assert |cs[last]| == 1;
      MapAllSpec(cs, f);
      if MapAll(cs, f).Err? {
        var j :| FirstFailure(cs, f, j) && MapAll(cs, f).error == f(cs[j]).error;
        assert |cs[j]| < 2;
      }
    } else {
      MapAllSpec(cs, f);
      forall i | 0 <= i < |cs| ensures cs[i] == binary[2 * i .. 2 * i + 2] {
      }
    }
  }

  /** A stream of 2N bytes yields N instructions in stream order, instruction i unpacked
      from bytes 2i and 2i+1 alone; an odd-length stream raises IndexError. */
  lemma GetInstructionsSpec(binary: seq<Byte>)
    ensures GetInstructions(binary).Ok? <==> |binary| % 2 == 0
    ensures GetInstructions(binary).Err? ==> GetInstructions(binary).error == IndexError
    ensures GetInstructions(binary).Ok? ==>
      && |GetInstructions(binary).value| == |binary| / 2
      && forall i :: 0 <= i < |binary| / 2 ==>
           GetInstructions(binary).value[i] == Unpack(binary[2 * i], binary[2 * i + 1])
  {
    MapChunks(binary, AssembleChunk);
    forall i | 0 <= i < |binary| / 2 && |binary| % 2 == 0
      ensures AssembleChunk(binary[2 * i .. 2 * i + 2]).value == Unpack(binary[2 * i], binary[2 * i + 1])
    {
      AssembleFields(binary[2 * i], binary[2 * i + 1]);
    }
  }

  /** The bytes an instruction sequence is encoded in: byte j comes from
      instruction j / 2. (The ensures only unfolds the body's length for callers.) */
  function EncodeAll(instructions: seq<AssembledInstruction>): (r: seq<Byte>)
    requires forall i :: 0 <= i < |instructions| ==> WellFormed(instructions[i])
    ensures |r| == 2 * |instructions|
  {
    seq(2 * |instructions|, j requires 0 <= j < 2 * |instructions| => Encode(instructions[j / 2])[j % 2])
  }

  /** Bytes 2i and 2i+1 of the encoding are those of instruction i. */
  lemma EncodeAllAt(instructions: seq<AssembledInstruction>, i: nat)
    requires forall j :: 0 <= j < |instructions| ==> WellFormed(instructions[j])
    requires i < |instructions|
    ensures EncodeAll(instructions)[2 * i] == Encode(instructions[i])[0]
    ensures EncodeAll(instructions)[2 * i + 1] == Encode(instructions[i])[1]
  {
    assert (2 * i) / 2 == i && (2 * i) % 2 == 0;
    assert (2 * i + 1) / 2 == i && (2 * i + 1) % 2 == 1;
  }

  /** Decoding the encoding of well-formed instructions gives them back. */
  lemma GetInstructionsEncodeAll(instructions: seq<AssembledInstruction>)
    requires forall i :: 0 <= i < |instructions| ==> WellFormed(instructions[i])
    ensures GetInstructions(EncodeAll(instructions)) == Ok(instructions)
  {
    var bytes := EncodeAll(instructions);
    forall i | 0 <= i < |instructions|
      ensures Unpack(bytes[2 * i], bytes[2 * i + 1]) == instructions[i]
    {
      EncodeAllAt(instructions, i);
      UnpackEncode(instructions[i]);
    }
    DecodePairs(bytes, instructions);
  }

  /** A stream whose byte pairs unpack to the given instructions decodes to them. */
  lemma DecodePairs(bytes: seq<Byte>, instructions: seq<AssembledInstruction>)
    requires |bytes| == 2 * |instructions|
    requires forall i :: 0 <= i < |instructions| ==>
      Unpack(bytes[2 * i], bytes[2 * i + 1]) == instructions[i]
    ensures GetInstructions(bytes) == Ok(instructions)
  {
    assert |bytes| % 2 == 0 && |bytes| / 2 == |instructions| by {
      DivModUnique(|bytes|, 2, |instructions|, 0);
    }
    GetInstructionsSpec(bytes);
    var r := GetInstructions(bytes).value;
    assert r == instructions;
  }

  /** Encoding the instructions unpacked from the byte pairs of an even-length stream
      gives back the stream. */
  lemma EncodeAllUnpacked(binary: seq<Byte>, r: seq<AssembledInstruction>)
    requires |binary| % 2 == 0 && |r| == |binary| / 2
    requires forall i :: 0 <= i < |r| ==> r[i] == Unpack(binary[2 * i], binary[2 * i + 1])
    ensures forall i :: 0 <= i < |r| ==> WellFormed(r[i])
    ensures EncodeAll(r) == binary
  {
    var bytes := EncodeAll(r);
    forall j | 0 <= j < |binary| ensures bytes[j] == binary[j] {
      var i := j / 2;
      assert j == 2 * i + j % 2;
      EncodeUnpack(binary[2 * i], binary[2 * i + 1]);
    }
  }

  /** Re-encoding the instructions decoded from an even-length stream gives back the
      stream, so no bit of the input is lost or moved. */
  lemma EncodeAllGetInstructions(binary: seq<Byte>)
    requires |binary| % 2 == 0
    ensures GetInstructions(binary).Ok?
    ensures forall i :: 0 <= i < |GetInstructions(binary).value| ==>
      WellFormed(GetInstructions(binary).value[i])
    ensures EncodeAll(GetInstructions(binary).value) == binary
  {
    GetInstructionsSpec(binary);
    EncodeAllUnpacked(binary, GetInstructions(binary).value);
  }

  // ---------------------------------------------------------------------------
  // The semantic resolver and formatter

  /** `AssembledInstruction.disassemble()`: the keyword arguments are evaluated in
      order, so an unknown op-code raises before any register lookup. The first
      operand always comes from r/m and the second from reg; d and mod are not read. */
  function Disassemble(ins: AssembledInstruction): Result<DisassembledInstruction>
  {
    if ins.opCode !in OpCodes then Err(KeyError(ins.opCode))
    else if ins.rm + ins.w * 8 !in Registers then Err(KeyError(ins.rm + ins.w * 8))
    else if ins.reg + ins.w * 8 !in Registers then Err(KeyError(ins.reg + ins.w * 8))
    else Ok(DisassembledInstruction(
      mnemonic := OpCodes[ins.opCode],
      reg1 := Registers[ins.rm + ins.w * 8],
      reg2 := Registers[ins.reg + ins.w * 8]))
  }

  /** `REGISTERS` is defined on exactly the keys 0-15: every lookup with w and a
      3-bit selector succeeds. */
  lemma RegistersDomain()
    ensures forall k :: k in Registers <==> 0 <= k < 16
  {
  }

  /** `REGISTERS` holds sixteen distinct two-letter capitalised names; the names of
      keys 0-7 end in L or H (the low and high bytes of AX, CX, DX, BX) and those of
      keys 8-15 do not. */
  lemma RegistersTable()
    ensures forall i, j :: i in Registers && j in Registers && i != j ==> Registers[i] != Registers[j]
    ensures forall k :: k in Registers ==>
      |Registers[k]| == 2 && 'A' <= Registers[k][0] <= 'Z' && 'A' <= Registers[k][1] <= 'Z'
    ensures forall k :: k in Registers ==>
      (k < 8 <==> Registers[k][1] == 'L' || Registers[k][1] == 'H')
  {
  }

  /** On well-formed fields the register lookups never fail: disassembly fails exactly
      on an unknown op-code, raising KeyError for it; otherwise the mnemonic is "mov",
      the first operand is the w-width register r/m selects and the second the one reg
      selects. */
  lemma DisassembleSpec(ins: AssembledInstruction)
    requires WellFormed(ins)
    ensures Disassemble(ins).Ok? <==> ins.opCode == MovOpCode
    ensures Disassemble(ins).Err? ==> Disassemble(ins).error == KeyError(ins.opCode)
    ensures Disassemble(ins).Ok? ==>
      && Disassemble(ins).value.mnemonic == "mov"
      && Disassemble(ins).value.reg1 == Registers[8 * ins.w + ins.rm]
      && Disassemble(ins).value.reg2 == Registers[8 * ins.w + ins.reg]
  {
    RegistersDomain();
  }

  /** The result does not depend on the direction bit d or the mode field mod. */
  lemma DisassembleIgnoresDirectionAndMode(ins: AssembledInstruction, d: int, mod: int)
    ensures Disassemble(ins.(d := d, mod := mod)) == Disassemble(ins)
  {
  }

  /** `DisassembledInstruction.__str__`. */
  function Render(di: DisassembledInstruction): string
  {
    Lower(di.mnemonic + " " + di.reg1 + ", " + di.reg2)
  }

  /** A line is the lower-cased mnemonic, a space, the lower-cased first operand, a
      comma and a space, and the lower-cased second operand; it has no capitals, and
      no newline when the parts have none. */
  lemma RenderSpec(di: DisassembledInstruction)
    ensures Render(di) == Lower(di.mnemonic) + " " + Lower(di.reg1) + ", " + Lower(di.reg2)
    ensures NoCapitals(Render(di))
    ensures SingleLine(di.mnemonic) && SingleLine(di.reg1) && SingleLine(di.reg2) ==>
      SingleLine(Render(di))
  {
    var m, x, y := di.mnemonic, di.reg1, di.reg2;
    assert Render(di) == Lower(m) + " " + Lower(x) + ", " + Lower(y) by {
      LowerConcat(m + " " + x + ", ", y);
      LowerConcat(m + " " + x, ", ");
      LowerConcat(m + " ", x);
      LowerConcat(m, " ");
      assert Lower(" ") == " " && Lower(", ") == ", ";
    }
    assert NoCapitals(Render(di)) by {
      LowerIdempotent(m + " " + x + ", " + y);
    }
    if SingleLine(m) && SingleLine(x) && SingleLine(y) {
      LowerKeepsLines(m + " " + x + ", " + y);
      TextConcat(m, " ");
      TextConcat(m + " ", x);
      TextConcat(m + " " + x, ", ");
      TextConcat(m + " " + x + ", ", y);
    }
  }

  // ---------------------------------------------------------------------------
  // The listing

  /** `str(instruction.disassemble())`. */
  function RenderInstruction(ins: AssembledInstruction): Result<string>
  {
    match Disassemble(ins)
    case Err(e) => Err(e)
    case Ok(di) => Ok(Render(di))
  }

  /** The program's output for a byte stream: every instruction is disassembled and
      rendered, and the lines are joined with "\n" (no newline after the last). The
      first exception, from decoding or from a lookup, aborts the whole listing. */
  function Listing(binary: seq<Byte>): Result<string>
  {
    match GetInstructions(binary)
    case Err(e) => Err(e)
    case Ok(instructions) =>
      match MapAll(instructions, RenderInstruction)
      case Err(e) => Err(e)
      case Ok(lines) => Ok(Join(lines, "\n"))
  }

  /** The name of the register a 3-bit selector picks at operand width w. */
  function RegisterName(w: int, selector: int): (r: string)
    requires 0 <= w < 2 && 0 <= selector < 8
    ensures |r| == 2
  {
    RegistersDomain();
    Registers[8 * w + selector]
  }

  /** The line the listing holds for the byte pair b0 b1, read straight off the bits:
      `mov`, then the register r/m (bits 2-0 of b1) names and the one reg (bits 5-3 of
      b1) names, both at the width bit 0 of b0 selects, in lower case. */
  function LineOf(b0: Byte, b1: Byte): string
  {
    "mov " + Lower(RegisterName(b0 % 2, b1 % 8)) + ", " + Lower(RegisterName(b0 % 2, (b1 / 8) % 8))
  }

  /** The listing's lines, one per byte pair. */
  function Lines(binary: seq<Byte>): seq<string>
  {
    seq(|binary| / 2, i requires 0 <= i < |binary| / 2 => LineOf(binary[2 * i], binary[2 * i + 1]))
  }

  /** Line i of the listing comes from bytes 2i and 2i+1. */
  lemma LinesAt(binary: seq<Byte>, i: int)
    requires 0 <= i < |binary| / 2
    ensures |Lines(binary)| == |binary| / 2 && 2 * i + 1 < |binary|
    ensures Lines(binary)[i] == LineOf(binary[2 * i], binary[2 * i + 1])
  {
  }

  /** Rendering a well-formed instruction fails exactly on an unknown op-code, with
      KeyError for it, and otherwise gives `mov <r/m register>, <reg register>`. */
  lemma RenderInstructionSpec(ins: AssembledInstruction)
    requires WellFormed(ins)
    ensures RenderInstruction(ins).Ok? <==> ins.opCode == MovOpCode
    ensures RenderInstruction(ins).Err? ==> RenderInstruction(ins).error == KeyError(ins.opCode)
    ensures RenderInstruction(ins).Ok? ==> (RenderInstruction(ins).value ==
      "mov " + Lower(RegisterName(ins.w, ins.rm)) + ", " + Lower(RegisterName(ins.w, ins.reg)))
  {
    DisassembleSpec(ins);
    if ins.opCode == MovOpCode {
      var x, y := RegisterName(ins.w, ins.rm), RegisterName(ins.w, ins.reg);
      var di := Disassemble(ins).value;
      assert di == DisassembledInstruction("mov", x, y);
      RenderSpec(di);
      assert Lower("mov") == "mov" by {
        LowerIdempotent("mov");
      }
      assert Lower("mov") + " " == "mov ";
    }
  }

  /** The byte pair b0 b1 renders to LineOf(b0, b1) when its op-code bits are MOV's,
      and raises KeyError of those bits otherwise. */
  lemma RenderPair(b0: Byte, b1: Byte)
    ensures RenderInstruction(Unpack(b0, b1)).Ok? <==> b0 / 4 == MovOpCode
    ensures RenderInstruction(Unpack(b0, b1)).Err? ==>
      RenderInstruction(Unpack(b0, b1)).error == KeyError(b0 / 4)
    ensures RenderInstruction(Unpack(b0, b1)).Ok? ==>
      RenderInstruction(Unpack(b0, b1)).value == LineOf(b0, b1)
  {
    RenderInstructionSpec(Unpack(b0, b1));
  }

  /** RenderPair for every byte pair of a stream at once. */
  lemma RenderEach(binary: seq<Byte>, instructions: seq<AssembledInstruction>)
    requires |instructions| == |binary| / 2
    requires forall i :: 0 <= i < |instructions| ==>
      instructions[i] == Unpack(binary[2 * i], binary[2 * i + 1])
    ensures forall i :: 0 <= i < |instructions| ==>
      RenderInstruction(instructions[i]) ==
        if binary[2 * i] / 4 == MovOpCode then Ok(Lines(binary)[i])
        else Err(KeyError(binary[2 * i] / 4))
  {
    forall i | 0 <= i < |instructions|
      ensures RenderInstruction(instructions[i]) ==
        if binary[2 * i] / 4 == MovOpCode then Ok(Lines(binary)[i])
        else Err(KeyError(binary[2 * i] / 4))
    {
      LinesAt(binary, i);
      RenderPair(binary[2 * i], binary[2 * i + 1]);
    }
  }

  /** Rendering the instructions unpacked from the byte pairs of a stream succeeds
      exactly when every pair's op-code bits are MOV's, raises KeyError for the first
      pair whose bits are not, and otherwise gives the pairs' lines in order. */
  lemma RenderAllSpec(binary: seq<Byte>, instructions: seq<AssembledInstruction>)
    requires |instructions| == |binary| / 2
    requires forall i :: 0 <= i < |instructions| ==>
      instructions[i] == Unpack(binary[2 * i], binary[2 * i + 1])
    ensures MapAll(instructions, RenderInstruction).Ok? <==>
      forall i :: 0 <= i < |binary| / 2 ==> binary[2 * i] / 4 == MovOpCode
    ensures MapAll(instructions, RenderInstruction).Err? ==>
      exists i :: && 0 <= i < |binary| / 2 && binary[2 * i] / 4 != MovOpCode
                  && (forall j :: 0 <= j < i ==> binary[2 * j] / 4 == MovOpCode)
                  && MapAll(instructions, RenderInstruction).error == KeyError(binary[2 * i] / 4)
    ensures MapAll(instructions, RenderInstruction).Ok? ==>
      MapAll(instructions, RenderInstruction).value == Lines(binary)
  {
    var n := |instructions|;
    var ok := seq(n, i requires 0 <= i < n => binary[2 * i] / 4 == MovOpCode);
    var errs := seq(n, i requires 0 <= i < n => KeyError(binary[2 * i] / 4));
    RenderEach(binary, instructions);
    MapAllKnown(instructions, RenderInstruction, ok, Lines(binary), errs);
  }

  /** The listing: an odd-length stream raises IndexError; an even-length one succeeds
      exactly when every pair's op-code bits are MOV's, raises KeyError for the first
      pair whose bits are not, and otherwise is the pairs' lines joined by newlines. */
  lemma ListingSpec(binary: seq<Byte>)
    ensures |binary| % 2 == 1 ==> Listing(binary) == Err(IndexError)
    ensures |binary| % 2 == 0 ==>
      (Listing(binary).Ok? <==> forall i :: 0 <= i < |binary| / 2 ==> binary[2 * i] / 4 == MovOpCode)
    ensures |binary| % 2 == 0 && Listing(binary).Err? ==>
      exists i :: && 0 <= i < |binary| / 2 && binary[2 * i] / 4 != MovOpCode
                  && (forall j :: 0 <= j < i ==> binary[2 * j] / 4 == MovOpCode)
                  && Listing(binary).error == KeyError(binary[2 * i] / 4)
    ensures Listing(binary).Ok? ==> Listing(binary).value == Join(Lines(binary), "\n")
  {
    GetInstructionsSpec(binary);
    if |binary| % 2 == 0 {
      RenderAllSpec(binary, GetInstructions(binary).value);
    }
  }

  /** A register name in lower case: two characters, no capital, no newline. */
  lemma LowerRegisterName(w: int, selector: int)
    requires 0 <= w < 2 && 0 <= selector < 8
    ensures |Lower(RegisterName(w, selector))| == 2
    ensures NoCapitals(Lower(RegisterName(w, selector)))
    ensures SingleLine(Lower(RegisterName(w, selector)))
  {
    var r := RegisterName(w, selector);
    assert 'A' <= r[0] <= 'Z' && 'A' <= r[1] <= 'Z' by {
      RegistersTable();
    }
    LowerIdempotent(r);
  }

  /** Every line is ten characters, `mov xx, yy`, with no capital and no newline. */
  lemma LineOfShape(b0: Byte, b1: Byte)
    ensures |LineOf(b0, b1)| == 10
    ensures NoCapitals(LineOf(b0, b1)) && SingleLine(LineOf(b0, b1))
  {
    var x, y := Lower(RegisterName(b0 % 2, b1 % 8)), Lower(RegisterName(b0 % 2, (b1 / 8) % 8));
    LowerRegisterName(b0 % 2, b1 % 8);
    LowerRegisterName(b0 % 2, (b1 / 8) % 8);
    assert LineOf(b0, b1) == "mov " + x + ", " + y;
    assert NoCapitals("mov ") && SingleLine("mov ") && NoCapitals(", ") && SingleLine(", ");
    TextConcat("mov ", x);
    TextConcat("mov " + x, ", ");
    TextConcat("mov " + x + ", ", y);
  }

  /** A non-empty stream of MOV byte pairs lists successfully; splitting the listing at
      its newlines gives back one line per byte pair, and the listing is 11N - 1
      characters long for N pairs: no newline follows the last line. */
  lemma ListingLines(binary: seq<Byte>)
    requires |binary| >= 2 && |binary| % 2 == 0
    requires forall i :: 0 <= i < |binary| / 2 ==> binary[2 * i] / 4 == MovOpCode
    ensures Listing(binary).Ok?
    ensures SplitLines(Listing(binary).value) == Lines(binary)
    ensures |Listing(binary).value| == 11 * (|binary| / 2) - 1
  {
    ListingSpec(binary);
    var lines := Lines(binary);
    forall i | 0 <= i < |lines| ensures SingleLine(lines[i]) && |lines[i]| == 10 {
      LinesAt(binary, i);
      LineOfShape(binary[2 * i], binary[2 * i + 1]);
    }
    SplitJoin(lines);
    JoinLength(lines, "\n", 10);
  }

  /** The one-instruction listing of a byte pair with MOV's op-code bits. */
  lemma ListingOne(b0: Byte, b1: Byte)
    requires b0 / 4 == MovOpCode
    ensures Listing([b0, b1]) == Ok(LineOf(b0, b1))
  {
    ListingSpec([b0, b1]);
    LinesAt([b0, b1], 0);
  }

  /** The lower-case names of the registers the worked listings use. */
  lemma LowerNames()
    ensures Lower("AX") == "ax" && Lower("BX") == "bx" && Lower("CX") == "cx"
  {
    assert LowerChar('A') == 'a' && LowerChar('B') == 'b' && LowerChar('C') == 'c';
    assert LowerChar('X') == 'x';
  }

  /** 0x89 0xD9 is MOV CX, BX with d = 0: r/m names CX and reg names BX. */
  lemma ExampleMovCxBx()
    ensures Listing([0x89, 0xD9]) == Ok("mov cx, bx")
  {
    assert LineOf(0x89, 0xD9) == "mov cx, bx" by {
      assert (0x89 as Byte) % 2 == 1;
      LowerNames();
    }
    ListingOne(0x89, 0xD9);
  }

  /** 0x89 0xC1 renders as `mov cx, ax`. */
  lemma ExampleMovCxAx()
    ensures Listing([0x89, 0xC1]) == Ok("mov cx, ax")
  {
    assert LineOf(0x89, 0xC1) == "mov cx, ax" by {
      assert (0x89 as Byte) % 2 == 1;
      LowerNames();
    }
    ListingOne(0x89, 0xC1);
  }

  /** Setting d (0x8B 0xCB) does not swap the operands: r/m (BX) still comes first. */
  lemma ExampleDirectionIgnored()
    ensures Listing([0x8B, 0xCB]) == Ok("mov bx, cx")
  {
    assert LineOf(0x8B, 0xCB) == "mov bx, cx" by {
      assert (0x8B as Byte) % 2 == 1;
      LowerNames();
    }
    ListingOne(0x8B, 0xCB);
  }

  /** The two-instruction listing of two byte pairs with MOV's op-code bits. */
  lemma ListingTwo(b0: Byte, b1: Byte, c0: Byte, c1: Byte)
    requires b0 / 4 == MovOpCode && c0 / 4 == MovOpCode
    ensures Listing([b0, b1, c0, c1]) == Ok(LineOf(b0, b1) + "\n" + LineOf(c0, c1))
  {
    var bs: seq<Byte> := [b0, b1, c0, c1];
    LinesAt(bs, 0);
    LinesAt(bs, 1);
    assert Lines(bs) == [LineOf(b0, b1), LineOf(c0, c1)];
    assert Lines(bs)[1..] == [LineOf(c0, c1)];
    assert forall i :: 0 <= i < |bs| / 2 ==> bs[2 * i] / 4 == MovOpCode by {
      assert |bs| / 2 == 2;
    }
    ListingSpec(bs);
  }

  /** Two instructions give two lines joined by one newline, with none at the end. */
  lemma ExampleTwoLines()
    ensures Listing([0x89, 0xD9, 0x89, 0xC1]) == Ok("mov cx, bx\nmov cx, ax")
  {
    assert LineOf(0x89, 0xD9) == "mov cx, bx" && LineOf(0x89, 0xC1) == "mov cx, ax" by {
      assert (0x89 as Byte) % 2 == 1;
      LowerNames();
    }
    assert "mov cx, bx" + "\n" + "mov cx, ax" == "mov cx, bx\nmov cx, ax";
    ListingTwo(0x89, 0xD9, 0x89, 0xC1);
  }

  /** A stream cut short raises IndexError, an unknown op-code (here 0) raises
      KeyError for it, and an empty stream gives the empty listing. */
  lemma ExampleErrors()
    ensures Listing([0x89]) == Err(IndexError)
    ensures Listing([0x01, 0xD8]) == Err(KeyError(0))
    ensures Listing([]) == Ok("")
  {
    ListingSpec([0x89]);
    ListingSpec([0x01, 0xD8]);
    ListingSpec([]);
  }
}
