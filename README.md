# A verified model of a two-byte 8086 MOV disassembler

The program reads a stream of 8086 machine code made only of the two-byte
MOV register/memory-to/from-register form. The first byte is `100010dw` and the
second is `mod reg r/m` (Intel 8086 Family User's Manual, chapter 4). It prints one
line of assembly per instruction. Its pipeline has three stages:

1. **Bit-field extractor.** `take(byte, s, e)` computes `byte >> e & ((255 << (s - e)) ^ 255)`,
   the bits `[e, s)` of a byte.
2. **Instruction decoder.** `get_instructions` cuts the stream into two-byte chunks and
   unpacks six fields per chunk: `op_code`, `d`, `w`, `mod`, `reg`, `r_m`.
3. **Resolver and formatter.** `disassemble` looks the fields up in `OP_CODES` and
   `REGISTERS`. `__str__` renders `mnemonic reg1, reg2` in lower case. The main block
   joins the lines with `"\n"`.

The model is pure, as the program is. It has three modules:

- `Bits` (`bits.dfy`) defines Python's `<<`, `>>`, `&` and `^` on non-negative integers
  as recursive functions, with the arithmetic facts the extractor needs.
- `Text` (`text.dfy`) defines ASCII `str.lower`, `sep.join` and `str.split("\n")`.
- `Disassembler` (`disassemble.dfy`) holds the tables, the two records, `take`, the
  decoder, the resolver, the formatter and the whole listing.

Python's exceptions become the `Error` datatype:

- `IndexError`: a one-byte last chunk reaches `binary[1]`;
- `KeyError(key)`: a table lookup fails.

A computation that may raise returns `Result<T>`. `MapAll` models a list comprehension
whose element function may raise: the first failing element aborts it.

Where the 8086 manual's reading and the code differ, the model follows the code:

- An odd-length stream raises `IndexError`: the code never checks the length.
- The direction bit `d` and the mode field `mod` are decoded but never read. The
  register that `r/m` names always comes first.

Several specification functions are independent reference definitions:

- `Unpack` reads the six fields with `/` and `%`.
- `Encode` and `EncodeAll` are the inverse encoding.
- `LineOf` and `Lines` give a listing's lines straight from the bytes.

The program functions model the Python ones one for one: `Take` is `take`, `Assemble` is
the record built from one chunk, `Chunks` is the slicing, `GetInstructions` is
`get_instructions`, `Disassemble` is `AssembledInstruction.disassemble`, `Render` is
`DisassembledInstruction.__str__`, `RenderInstruction` is `str(instruction.disassemble())`
and `Listing` is the main block's joined string. The lemmas connect each program function
to its reference definition.

## Model

| member | source | states |
|---|---|---|
| Bits.ShiftRightIsDiv | homework_1/disassemble.py:78 | `x >> n` is `x / 2^n` |
| Bits.ShiftLeftIsMul | homework_1/disassemble.py:78 | `x << n` is `x * 2^n` |
| Bits.AndOnes | homework_1/disassemble.py:78 | AND with `2^k - 1` is the remainder modulo `2^k` |
| Bits.AndLowBits | homework_1/disassemble.py:78 | an AND with an operand below `2^n` sees only the mask's low n bits |
| Bits.FieldMask | homework_1/disassemble.py:78 | `(255 << k) ^ 255` for k <= 8 is k low one-bits plus the same k ones again at bits 8 to k+7 |
| Disassembler.TakeIsField | homework_1/disassemble.py:77-78 | on a byte, `take(b, s, e)` equals `(b / 2^e) % 2^(s-e)` and is below `2^(s-e)`; the mask's stray high bits never matter |
| Disassembler.Unpack | homework_1/disassemble.py:66-71 | each field lies within its width: op_code < 64, d and w < 2, mod < 4, reg and r_m < 8 |
| Disassembler.AssembleFields | homework_1/disassemble.py:65-72 | the six `take` calls give exactly bits 7-2, 1 and 0 of byte 0 and bits 7-6, 5-3 and 2-0 of byte 1 |
| Disassembler.EncodeUnpack | homework_1/disassemble.py:66-71 | the fields rebuild the bytes: `op_code*4 + d*2 + w == byte0` and `mod*64 + reg*8 + r_m == byte1` |
| Disassembler.UnpackInjective | homework_1/disassemble.py:66-71 | no two byte pairs share their fields: equal fields mean equal bytes |
| Disassembler.UnpackEncode | homework_1/disassemble.py:66-71 | unpacking the encoding of well-formed fields gives them back, so no two well-formed records share an encoding |
| Disassembler.ChunksCover | homework_1/disassemble.py:61-63 | there are `ceil(n/2)` chunks, chunk i starts at byte 2i, all have two bytes except a one-byte last chunk for odd n, and together in order they are the stream |
| Disassembler.ChunksStep | homework_1/disassemble.py:61-63 | the chunks are the first two bytes followed by the chunks of the rest |
| Disassembler.MapAllSpec | homework_1/disassemble.py:64-74 | a comprehension whose element function may raise succeeds exactly when every element does, keeps order and length, and otherwise raises the first failing element's exception |
| Disassembler.MapAllKnown | homework_1/disassemble.py:85 | the same, for element results known in advance as flags, values and errors |
| Disassembler.MapChunks | homework_1/disassemble.py:60-74 | mapping a chunk function that fails exactly on short chunks succeeds exactly on even length, with one result per byte pair in order; otherwise IndexError |
| Disassembler.GetInstructionsSpec | homework_1/disassemble.py:60-74 | a stream of 2N bytes yields N records in input order, record i unpacked from bytes 2i and 2i+1 only; an odd length raises IndexError and nothing else can fail |
| Disassembler.GetInstructionsEncodeAll | homework_1/disassemble.py:60-74 | decoding the encoding of any well-formed records gives them back |
| Disassembler.DecodePairs | homework_1/disassemble.py:60-74 | a stream of 2N bytes whose pair i unpacks to record i decodes to exactly those N records |
| Disassembler.EncodeAllGetInstructions | homework_1/disassemble.py:60-74 | on an even-length stream decoding succeeds, every record is well formed, and re-encoding the records gives back the stream |
| Disassembler.EncodeAllUnpacked | homework_1/disassemble.py:64-74 | records unpacked pair by pair re-encode to the stream |
| Disassembler.RegistersDomain | homework_1/disassemble.py:6-23 | `REGISTERS` has exactly the keys 0-15, so every key `selector + w*8` is defined |
| Disassembler.RegistersTable | homework_1/disassemble.py:6-23 | the sixteen names are distinct two-letter capitals; keys 0-7 name byte registers (ending in L or H), keys 8-15 word registers |
| Disassembler.DisassembleSpec | homework_1/disassemble.py:45-50 | on well-formed fields disassembly fails exactly when op_code is not `0b100010`, with KeyError of the op-code; otherwise the mnemonic is "mov", reg1 is the w-width register r_m selects and reg2 the one reg selects |
| Disassembler.DisassembleIgnoresDirectionAndMode | homework_1/disassemble.py:45-50 | changing d or mod never changes the result |
| Text.LowerConcat | homework_1/disassemble.py:33 | lowering distributes over concatenation |
| Text.LowerIdempotent | homework_1/disassemble.py:33 | lowering leaves no capital, leaves text without capitals alone, and lowering twice is lowering once |
| Text.LowerKeepsLines | homework_1/disassemble.py:33 | lowering neither adds nor removes a newline |
| Disassembler.RenderSpec | homework_1/disassemble.py:32-33 | a line is the lowered mnemonic, a space, the lowered reg1, a comma and a space, and the lowered reg2; it has no capitals and no newline when its parts have none |
| Disassembler.LowerRegisterName | homework_1/disassemble.py:33 | a lowered register name is two characters with no capital and no newline |
| Disassembler.LineOfShape | homework_1/disassemble.py:32-33 | every listing line is ten characters with no capital and no newline |
| Disassembler.RenderInstructionSpec | homework_1/disassemble.py:85 | rendering a well-formed record fails exactly on an unknown op-code, with its KeyError, and otherwise gives `mov <r_m register>, <reg register>` in lower case |
| Disassembler.RenderPair | homework_1/disassemble.py:85 | the record of a byte pair renders to `LineOf` of the pair exactly when its op-code bits are MOV's, and raises KeyError of those bits otherwise |
| Disassembler.RenderEach | homework_1/disassemble.py:85 | the same for every byte pair of a stream, in terms of `Lines` |
| Disassembler.RenderAllSpec | homework_1/disassemble.py:84-86 | rendering the records of a stream succeeds exactly when every op-code is MOV's, raises KeyError of the first one that is not, and otherwise gives `Lines` of the stream |
| Disassembler.ListingSpec | homework_1/disassemble.py:83-86 | the listing of an odd-length stream raises IndexError; for an even-length stream it succeeds exactly when every op-code is MOV's, raises KeyError of the first one that is not, and otherwise is the lines joined with "\n" |
| Text.SplitJoin | homework_1/disassemble.py:84-86 | for one or more lines, splitting lines joined with "\n" at newlines gives them back, when no line holds a newline (zero lines join to "", which splits into one empty line) |
| Text.JoinLength | homework_1/disassemble.py:84-86 | n joined lines of length len take n*len characters plus n-1 separators, so nothing follows the last line |
| Disassembler.ListingLines | homework_1/disassemble.py:84-86 | a non-empty stream of MOV byte pairs lists successfully, and its listing splits at newlines into exactly one line per byte pair and is 11N - 1 characters long |
| Disassembler.ListingOne | homework_1/disassemble.py:83-86 | a single MOV byte pair lists as its one line |
| Disassembler.ListingTwo | homework_1/disassemble.py:83-86 | two MOV byte pairs list as their lines with one newline between them and none after |
| Disassembler.ExampleMovCxBx | homework_1/disassemble.py:83-86 | bytes 0x89 0xD9 list as "mov cx, bx" |
| Disassembler.ExampleMovCxAx | homework_1/disassemble.py:83-86 | bytes 0x89 0xC1 list as "mov cx, ax" |
| Disassembler.ExampleDirectionIgnored | homework_1/disassemble.py:45-50 | bytes 0x8B 0xCB (d = 1, reg CX, r/m BX) list as "mov bx, cx": setting d does not swap the operands |
| Disassembler.ExampleTwoLines | homework_1/disassemble.py:84-86 | bytes 0x89 0xD9 0x89 0xC1 list as "mov cx, bx\nmov cx, ax", with no trailing newline |
| Disassembler.ExampleErrors | homework_1/disassemble.py:83-86 | a one-byte stream raises IndexError, bytes 0x01 0xD8 raise KeyError(0), and the empty stream lists as "" |

## Left out

- `get_bytes` (homework_1/disassemble.py:53-57) and the decoding of only the first
  `readlines()` piece (homework_1/disassemble.py:83) are file input. The model takes
  the whole stream as one byte sequence. The split of the file at 0x0A bytes is not
  modelled.
- `print` (homework_1/disassemble.py:87) writes to standard output. The model stops
  at the string `Listing` returns.
- The `dataclass` machinery (generated `__init__`, `__eq__`, `__repr__`) is not
  modelled. The two records are plain datatypes.
- `str.lower` is modelled for ASCII only. Every string the program lowers is ASCII.
- Disassembler.Take: requires `e <= s`. Python raises ValueError on a negative shift
  count, and the program never calls `take` that way.
- Bytes are integers in 0..255 (`Byte`) rather than Python `bytes` objects. Indexing
  a `bytes` object yields exactly such an integer.
