# HAL compression codec, modelled and proved in Dafny

This project models `kirby/compression/hal.py`, the codec for the run-length /
back-reference compression used in HAL Laboratory ROMs, and proves properties
of the model.

- **Decoder (`decompress`).** A loop reads a 1- or 2-byte header, then runs one
  of seven commands:
  - 0: literal bytes;
  - 1: a repeated byte;
  - 2: a repeated 2-byte word;
  - 3: a counting run;
  - 4: a copy of earlier output;
  - 5: the same copy, bit-reversed;
  - 6: the same copy, read backwards.

  It stops at the sentinel byte `0xFF`, and it refuses to produce more than
  65 535 bytes.
- **Encoder (`compress`).** At every input position it runs six match finders
  (four in fast mode, which skips the mirrored and backwards back-references,
  kinds 5 and 6) and keeps a longest candidate. It emits that candidate when it beats plain
  bytes; otherwise it buffers the byte as a literal. The literal buffer is
  flushed before each emitted candidate, when it holds 1025 bytes, and at the
  end. The output ends with `0xFF`.

Every finder scans at most 1025 units (bytes, or two-byte words for
`find_rle16`), and the literal buffer holds at most 1025 bytes. In the model this bound is a parameter `limit` of the finders and of
`Compress`. A limit of 1025 is the code as written; 1024 is the corrected
encoder of the Findings section.

Modules, one per file:

- `Types` (`types.dfy`): bytes as 0..255 and their conversion to `bv8`, the
  error causes and `Result`.
- `Bits` (`bits.dfy`): the bit reversal `bitrotate`, done on `bv8`.
- `Header` (`header.dfy`): the decoder's header parse, and `make_header` as
  written. It also holds the corrected `make_header`.
- `Decoder` (`decoder.dfy`): the loop body `Step`/`Execute` and the whole
  decode `DecodeFrom`, as functions. `Decompress` and `RunCommand` are the
  imperative loops, each proved equal to its function.
- `Finders` (`finders.dfy`): the six finders, as methods with loops. Each is
  characterised by a predicate saying what it counts.
- `Encoder` (`encoder.dfy`): candidate selection and the `compress` loop.
  `Offers` and `SelectCandidate` leave out kinds 5 and 6 when `fast` is set.
  - `Compress` returns its output and, as a ghost, the records it wrote.
  - The output is those records' bytes followed by `0xFF`.
  - The records parse the input greedily (`Parses`): each one is a longest
    candidate that passed the size test, or literal bytes at each of which
    some longest candidate failed it. When candidates of equal length tie,
    the original may pick either.
- `RoundTrip` (`roundtrip.dfy`): every record decodes back to the input bytes
  it covers. Hence the whole output decodes back to the input, except where the
  three defects below lose information: header argument 32, header argument
  1024, and counting runs that wrap past 255.
- `Findings` (`findings.dfy`): concrete inputs on which `decompress` does not
  invert `compress`, the same input under the corrected encoder, and the
  corrected counting run.

Where the code cannot run as written, the model follows the evident intent:

- `await_return` (hal.py:150, 199, 228) is undefined. It is read as
  `await_returns`: no surviving offset means no candidate.
- `data` is rebound to the payload at hal.py:250. The payload is kept apart
  from the input.
- Every finder indexes past the end of the input near its end, where Python
  raises IndexError (hal.py:97, 119, 130, 178, 207). Such an index counts as a
  mismatch.
- `find_backref_at` returns `None` when a match runs to its scan limit, and
  that offset is dropped (hal.py:134, 182, 210). This is modelled as written.

Command 6 follows the code's check `pos - length >= 0` (hal.py:75). That check
also keeps a backwards copy away from output byte 0.

## Model

| member | source | states |
|---|---|---|
| Bits.Rot8 | kirby/compression/hal.py:50-68 | `bitrotate` on a bit-vector byte: the eight tests, bit 7 to bit 0, bit 6 to bit 1 and so on; its meaning is stated by Bits.BitRotateMirrorsBits |
| Bits.BitRotate | kirby/compression/hal.py:155-173 | `bitrotate` on a byte 0..255, through Rot8; stated by Bits.BitRotateMirrorsBits and Bits.BitRotateInvolution |
| Bits.BitRotateMirrorsBits | kirby/compression/hal.py:50-68 | bit k of `bitrotate(x)` is bit 7 - k of x |
| Bits.BitRotateInvolution | kirby/compression/hal.py:155-173 | `bitrotate` applied twice gives the byte back |
| Bits.BitRotateBijective | kirby/compression/hal.py:50-68 | `bitrotate` is a bijection on 0..255 |
| Header.ParseHeader | kirby/compression/hal.py:10-20 | a parsed header moves the address forward within the input; a command code is at most 7 and its length in 1..1024 |
| Header.ParseHeaderMeaning | kirby/compression/hal.py:12-20 | 0xFF is the sentinel; 0xE0..0xFE open a 2-byte header with command (b/4)%8 and length (b%4)*256+b1+1, or fail as truncated at the end of the input; smaller bytes give command b/32 and length b%32+1 |
| Header.MakeHeader | kirby/compression/hal.py:231-234 | the header has 2 bytes exactly when the argument exceeds 32, and its first byte is never the sentinel |
| Header.MakeHeaderRoundTrip | kirby/compression/hal.py:231-234 | for arguments 0..31 and 33..1023 the decoder's parse of `make_header(c, L)` gives back command c, length L+1 and the address after the header |
| Header.MakeHeaderSpillsAt32 | kirby/compression/hal.py:232-234 | for commands 0..5, argument 32 comes out as the 1-byte header of command c+1 with length 1 (command 6: Header.MakeHeaderSpillsIntoEscape) |
| Header.MakeHeaderSpillsIntoEscape | kirby/compression/hal.py:232-234 | argument 32 with command 6 gives [0xE0], which the parse takes for the escape of a 2-byte header of command 0 whose length is the next byte plus one, or a truncation at the end of the input |
| Header.MakeHeaderSpillsAt1024 | kirby/compression/hal.py:232-233 | argument 1024 comes out as the 2-byte header of command c+1 with length 1 |
| Header.LongHeaderFields | kirby/compression/hal.py:233 | the 2-byte form puts the escape bits, the command and the ten argument bits where the parse reads them |
| Header.MakeHeaderFixed | kirby/compression/hal.py:231-234 | with threshold 31 the header has 2 bytes exactly when the argument exceeds 31, and its first byte is never the sentinel |
| Header.MakeHeaderFixedRoundTrip | kirby/compression/hal.py:231-234 | with threshold 31 every argument 0..1023 parses back to the same command and length |
| Finders.FindRle8 | kirby/compression/hal.py:93-102 | returns kind 1, payload data[pos] and the length of the run of data[pos] from pos, 1..limit (1025 as written), stopped by a different byte, the end or the limit |
| Finders.Slice | kirby/compression/hal.py:105-108 | Python's `data[a:b]`: at most b-a bytes, exactly b-a when b is inside the input, cut at the end, each byte the input's byte at a+i |
| Finders.FindRle16 | kirby/compression/hal.py:104-113 | returns kind 2, the first word as payload and twice the number of repeats of that word, 1..limit repeats |
| Finders.FindRleInc | kirby/compression/hal.py:115-124 | returns kind 3, payload data[pos] and the length of the count data[pos], data[pos]+1, ... modulo 256 from pos |
| Finders.RunLengthsUnique | kirby/compression/hal.py:93-124 | the count each run finder returns is determined by the input |
| Finders.MatchLengthUnique | kirby/compression/hal.py:127-134 | the first mismatch `find_backref_at` reports is determined by the offset |
| Finders.FindBackrefAt | kirby/compression/hal.py:127-134 | returns the first mismatch below min(pos-off, limit) (min(off, limit) backwards; limit 1025 as written), with every earlier byte matching; returns None when all of them match |
| Finders.FindBackrefs | kirby/compression/hal.py:126-152 | returns a back-reference of the finder's kind whose length is at least that of every other offset's match, or no candidate exactly when no offset has a match that ends in a mismatch |
| Decoder.Repeat | kirby/compression/hal.py:30-33 | `bytes * n`: the pattern repeated n times, n times its length long |
| Decoder.IncrementRun | kirby/compression/hal.py:35-39 | command 3's bytes n, n+1, ...: when they fit, `length` bytes starting with n; an error once they pass 255 (Decoder.LiteralAndRunCommands, Findings.WrappingExtendsWritten) |
| Decoder.Mirror | kirby/compression/hal.py:71 | command 5's bytes: each copied byte bit-reversed, as many as copied |
| Decoder.Backwards | kirby/compression/hal.py:76 | `data[pos:pos-length:-1]`: `length` bytes, the first data[pos], the last data[pos-length+1] |
| Decoder.ReadWord | kirby/compression/hal.py:41-47 | the big-endian offset read: succeeds exactly when two bytes remain, and its value is at most 0xFFFF with high byte rom[addr] and low byte rom[addr+1] |
| Decoder.Step | kirby/compression/hal.py:9-24 | a successful iteration moves forward in the input and extends the output, never past 65 535 bytes |
| Decoder.Execute | kirby/compression/hal.py:22-80 | a command that succeeds keeps the output produced so far as a prefix, extends it and stays under the ceiling |
| Decoder.LiteralAndRunCommands | kirby/compression/hal.py:26-39 | commands 0-3 succeed exactly when their operands are in the input (and, for command 3, n+length-1 <= 255); they append `length` input bytes, one byte repeated, a word repeated, or n, n+1, ...; the address moves past the operands |
| Decoder.BackReferenceCommands | kirby/compression/hal.py:40-78 | commands 4-6 succeed exactly when the big-endian offset is in the input and the referenced bytes lie in the output so far; they append those bytes, bit-reversed for 5 and backwards for 6 |
| Decoder.CeilingAndUnknownCommand | kirby/compression/hal.py:22-24 | a command fails as too big exactly when the output would pass 65 535 bytes (2 per unit for command 2); command 7 that fits fails as unknown |
| Decoder.RepeatByte | kirby/compression/hal.py:30 | `bytes([b]) * n` is n copies of b |
| Decoder.RepeatPair | kirby/compression/hal.py:33 | a 2-byte pattern repeated n times has 2n bytes alternating between the two |
| Decoder.DecodeFrom | kirby/compression/hal.py:9-82 | a finished decode extends the output it started from and never exceeds 65 535 bytes |
| Decoder.Decompress | kirby/compression/hal.py:4-82 | the loop returns exactly the decode `DecodeFrom` specifies, never more than 65 535 bytes |
| Decoder.RunCommand | kirby/compression/hal.py:22-80 | the command handlers return exactly the state `Execute` specifies |
| Decoder.AppendIncrementRun | kirby/compression/hal.py:35-39 | the counting loop appends n, n+1, ..., n+length-1, or fails with Overflow exactly when that passes 255 |
| Encoder.Accepted | kirby/compression/hal.py:253-254 | the size test: nothing under 4 bytes is used, everything from 5 bytes is |
| Encoder.HeaderArgument | kirby/compression/hal.py:262-265 | the length passed to `make_header`: the number of units minus one, units being words for kind 2 |
| Encoder.PayloadBytes | kirby/compression/hal.py:267-272 | the bytes after a chosen header: the single byte for kinds 1 and 3, the word itself for kind 2, and for back-references two bytes that read back big-endian as the offset |
| Encoder.Encode | kirby/compression/hal.py:256-272 | a record's bytes start with its header, whose first byte is never the sentinel |
| Encoder.Serialize | kirby/compression/hal.py:256-289 | the records' bytes, at least one per record, never starting with the sentinel |
| Encoder.LongestIsMaximal | kirby/compression/hal.py:237-251 | a candidate at least as long as each finder's result is at least as long as every candidate any finder can offer |
| Encoder.Longest | kirby/compression/hal.py:250-251 | the selected candidate is in the list and no candidate is longer |
| Encoder.SelectCandidate | kirby/compression/hal.py:237-251 | the selected candidate is offered by a finder at pos, and no candidate any finder can offer there is longer |
| Encoder.RunBound | kirby/compression/hal.py:93-124 | a run finder's result is at least as long as every run of its kind at pos |
| Encoder.BackRefBound | kirby/compression/hal.py:126-152 | a back-reference finder's result exists and is at least as long as every back-reference of its kind at pos |
| Encoder.OfferShape | kirby/compression/hal.py:250-270 | an offered candidate has kind 1..6, the payload its kind writes, a header argument below the scan limit (so 0..1024 as written) and an offset before the cursor |
| Encoder.AcceptedFits | kirby/compression/hal.py:253-274 | an accepted candidate lies inside the input, and an accepted word run has a full 2-byte pattern |
| Encoder.Compress | kirby/compression/hal.py:236-289 | the output is the serialized records followed by 0xFF; the records parse the whole input greedily with the scan limit; literal records are cut at the limit (1025 as written); inputs up to 65 536 bytes never fail |
| Encoder.Start | kirby/compression/hal.py:86-88 | before the loop nothing is parsed, buffered or written |
| Encoder.Reject | kirby/compression/hal.py:275-277 | a byte whose longest candidate was turned down joins the literal buffer and keeps the loop invariant |
| Encoder.Flush | kirby/compression/hal.py:256-260 | flushing the buffer appends one literal record and `make_header(0, len-1)` plus the bytes, and keeps the loop invariant |
| Encoder.Choose | kirby/compression/hal.py:262-274 | emitting a chosen candidate appends its header and payload, advances the cursor by its size and keeps the loop invariant |
| Encoder.Rejected | kirby/compression/hal.py:253-254 | a longest candidate that fails the size test marks the position as rejected |
| Encoder.Finish | kirby/compression/hal.py:283-289 | with the buffer empty at the end of the input the records parse all of it |
| Encoder.ChosenValid | kirby/compression/hal.py:253-270 | an accepted longest candidate whose offset fits in two bytes is a valid, writable record |
| Encoder.LiteralExtends | kirby/compression/hal.py:283-286 | a flushed buffer of rejected bytes extends the parse by one literal record |
| Encoder.ParsesExtend | kirby/compression/hal.py:236-281 | a record valid where the parse ends extends the parse by its width |
| Encoder.SerializeExtend | kirby/compression/hal.py:256-272 | appending a record appends its bytes to the output |
| Encoder.FlushedExtend | kirby/compression/hal.py:278-281 | literal records stay cut at the limit when a record follows a full buffer |
| RoundTrip.LiteralDecodes | kirby/compression/hal.py:26-28 | command 0 copies the literal bytes of a flush back into the output |
| RoundTrip.ByteRunDecodes | kirby/compression/hal.py:29-31 | command 1 rebuilds every run `find_rle8` counts |
| RoundTrip.WordRunDecodes | kirby/compression/hal.py:32-34 | command 2 rebuilds every word run `find_rle16` counts |
| RoundTrip.IncRunDecodes | kirby/compression/hal.py:35-39 | command 3 rebuilds every counting run `find_rleinc` counts that does not pass 255 |
| RoundTrip.BackRefDecodes | kirby/compression/hal.py:40-78 | commands 4-6 rebuild every match the back-reference finders report, from the output decoded so far |
| RoundTrip.HeaderReadsBack | kirby/compression/hal.py:10-20 | the header of a record reads back as its command and length, followed by its operands |
| RoundTrip.OperandsDecode | kirby/compression/hal.py:26-78 | the command of a record turns its operands into the input bytes the record covers |
| RoundTrip.RecordDecodes | kirby/compression/hal.py:9-80 | one decoder iteration on a record's bytes appends exactly the input bytes the record covers |
| RoundTrip.SerializeAsWritten | kirby/compression/hal.py:231-289 | the serialization with `make_header` as written is the encoder's output |
| RoundTrip.TraceDecodes | kirby/compression/hal.py:9-82 | decoding the bytes of a parse of data[..end] reaches the end of those bytes with data[..end] as output |
| RoundTrip.RecordExtends | kirby/compression/hal.py:9-82 | decoding a record after other bytes extends the output by the bytes the record covers |
| RoundTrip.LastRecord | kirby/compression/hal.py:236-289 | the last record of a parse covers its tail and the records before it parse the rest |
| RoundTrip.RoundTripAs | kirby/compression/hal.py:4-82 | decoding the records followed by 0xFF gives back the input |
| RoundTrip.RecordFits | kirby/compression/hal.py:253-274 | every record the encoder chooses with a scan limit of at most 1025 in an input of at most 65 536 bytes can be written, with a header argument below the limit |
| RoundTrip.ParsedFits | kirby/compression/hal.py:236-289 | every record of a parse with such a limit can be written, with a header argument below the limit |
| RoundTrip.RoundTrip | kirby/compression/hal.py:85-289 | `decompress` inverts `compress` (limit 1025) on every input whose records avoid header arguments 32 and 1024 and whose counting runs do not wrap |
| RoundTrip.RoundTripFixed | kirby/compression/hal.py:231-234 | the corrected encoder, scan limit and literal buffer 1024 with header threshold 31: every record's argument is at most 1023, and every parse whose counting runs do not wrap decodes back to the input |
| Findings.FirstRecord | kirby/compression/hal.py:236-251 | the first record of a parse is the encoder's choice at position 0 |
| Findings.FirstRecordShorter | kirby/compression/hal.py:236-277 | in a parse of several records the first one covers less than everything |
| Findings.RecordNotEmpty | kirby/compression/hal.py:253-277 | every record covers at least one byte |
| Findings.RejectedCandidate | kirby/compression/hal.py:250-254 | at a rejected position a longest offered candidate failed the size test |
| Findings.NoBackRefAtStart | kirby/compression/hal.py:136-142 | no back-reference is offered at position 0 |
| Findings.ZerosCandidates | kirby/compression/hal.py:93-124 | in 1025 zero bytes the byte run is the only candidate at 0 covering everything |
| Findings.ZerosLongest | kirby/compression/hal.py:250-254 | at 0 in 1025 zero bytes a longest candidate is the byte run, and it passes the size test |
| Findings.ZerosStart | kirby/compression/hal.py:236-274 | every parse of 1025 zero bytes starts with the byte run, not with a literal |
| Findings.ZerosParse | kirby/compression/hal.py:236-274 | the only parse of 1025 zero bytes is the single byte run |
| Findings.ZerosCountingRunShort | kirby/compression/hal.py:115-124 | in zero bytes a counting run stops after one byte |
| Findings.ZerosRecordNoWrap | kirby/compression/hal.py:115-124 | a record chosen in zero bytes is not a wrapping counting run |
| Findings.ZerosNoWrap | kirby/compression/hal.py:236-281 | no record of a parse of zero bytes, under any limit, is a wrapping counting run |
| Findings.ZerosFixedRoundTrip | kirby/compression/hal.py:96-102 | under the corrected encoder (limit 1024, threshold 31) every parse of 1025 zero bytes decodes back to them |
| Findings.LongRunDecodes | kirby/compression/hal.py:9-34 | [0xE8, 0, 0, 0xFF] decodes to a truncation failure |
| Findings.LongRunBreaks | kirby/compression/hal.py:96-102 | `compress` writes [0xE8, 0, 0, 0xFF] for 1025 zero bytes, and `decompress` fails on it |
| Findings.WrappingCandidates | kirby/compression/hal.py:93-124 | in 0xFE, 0xFF, 0x00, 0x01 the counting run is the only candidate at 0 covering everything |
| Findings.WrappingLongest | kirby/compression/hal.py:250-254 | at 0 in 0xFE, 0xFF, 0x00, 0x01 a longest candidate is the counting run, and it passes the size test |
| Findings.WrappingStart | kirby/compression/hal.py:236-274 | every parse of 0xFE, 0xFF, 0x00, 0x01 starts with the counting run, not with a literal |
| Findings.WrappingParse | kirby/compression/hal.py:236-274 | the only parse of 0xFE, 0xFF, 0x00, 0x01 is the single counting run |
| Findings.CountingRunDecodes | kirby/compression/hal.py:35-39 | [0x63, 0xFE, 0xFF] decodes to an overflow failure |
| Findings.CountingRunBreaks | kirby/compression/hal.py:115-124 | `compress` writes [0x63, 0xFE, 0xFF] for 0xFE, 0xFF, 0x00, 0x01, and `decompress` fails on it |
| Findings.IncrementRunWrapping | kirby/compression/hal.py:119 | command 3 counting modulo 256, as `find_rleinc` does: `length` bytes starting with n |
| Findings.WrappingRunRebuilds | kirby/compression/hal.py:119 | counting modulo 256 rebuilds every run `find_rleinc` counts, wrapping or not |
| Findings.WrappingExtendsWritten | kirby/compression/hal.py:35-39 | command 3 as written succeeds exactly when the run does not pass 255, and then agrees with counting modulo 256 |

## Left out

- The `asyncio` scheduling, `switch()` and `asyncio.wait` are left out. The finders run one after another. Their interleaving does not change any result.
- Encoder.SelectCandidate: keeps the first longest candidate in finder order. `asyncio.wait` returns an unordered set, so the original's choice among equally long candidates is unspecified. The contract therefore promises only some longest candidate, and `Parses` allows any of them.
- The `rom` object is not part of this model. `rom.read` becomes indexing into a byte sequence, and a read past its end fails as `Truncated`. The start address is a parameter instead of `rom.tell()`. The `"b"` and `"h"` reads are taken as unsigned: a byte, and a big-endian 16-bit word `256*hi+lo`.
- Python's exception types (ValueError, AssertionError, OverflowError, IndexError on reads) become one `Error` datatype with a constructor per cause.
- Encoder.Compress: the records it wrote are a ghost result. The contract states the output through them (`Serialize(trace) + [0xFF]`) rather than as a closed formula of the input.
- The cost of the quadratic back-reference scan is not modelled.
- RoundTrip.RoundTrip: requires that no record has header argument 32 or 1024, and that no counting run wraps. `compress` does write such records, and on them `decompress` does not give the input back (see Findings).
- Encoder.Compress: with limit 1024 it is the corrected encoder's loop, but it still writes headers with `make_header` as written. The corrected header is applied to its records by `RoundTrip.SerializeFixed`, not inside the method.
- Findings.WrappingRunRebuilds: the counting run modulo 256 is proved to rebuild every run `find_rleinc` counts. A whole decoder using it is not modelled.

## Findings

| source | as written | input that shows it | evidently intended | confidence | as-written member | corrected member |
|---|---|---|---|---|---|---|
| kirby/compression/hal.py:232 | `make_header` tests `length > 32` on a length already decremented by one, so argument 32 takes the 1-byte form and its sixth bit spills into the command (with command 6 the byte is 0xE0, which opens a 2-byte literal header: Header.MakeHeaderSpillsIntoEscape) | a 33-byte literal block: `make_header(0, 32)` is [0x20], which parses as command 1 with length 1 | `length > 31` | not executed | Header.MakeHeaderSpillsAt32 | Header.MakeHeaderFixedRoundTrip |
| kirby/compression/hal.py:96 | the finders scan up to 1025 units (bytes, or words for `find_rle16`) and the literal buffer is flushed at 1025, so a record can need argument 1024, which the 10-bit length field cannot hold | 1025 zero bytes: the output is [0xE8, 0x00, 0x00, 0xFF]; this parses as command 2 with length 1, and decoding fails for lack of input | finders and literal buffer stopping at 1024 units, so arguments up to 1023 (`limit` 1024 in the model; Findings.ZerosFixedRoundTrip for this input) | not executed | Findings.LongRunBreaks | RoundTrip.RoundTripFixed |
| kirby/compression/hal.py:39 | the decoder's command 3 raises once n + x passes 255, while `find_rleinc` counts modulo 256 (hal.py:119) | 0xFE, 0xFF, 0x00, 0x01: the output is [0x63, 0xFE, 0xFF], and decoding fails with an overflow | `(n[0] + x) & 0xFF` in the decoder | not executed | Findings.CountingRunBreaks | Findings.WrappingRunRebuilds |
