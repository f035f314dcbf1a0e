/** What `decompress` makes of `compress`'s output: each record the encoder
    writes decodes back to the input bytes it covers, so the whole output
    decodes to the input, except where `make_header` or command 3 lose
    information. */
module RoundTrip {
  import opened Types
  import opened Bits
  import opened Header
  import opened Finders
  import opened Decoder
  import opened Encoder

  // ----- one command at a time -----

  /** Command 0 copies the literal bytes back. */
  lemma LiteralDecodes(data: seq<Byte>, at: nat, bytes: seq<Byte>, rom: seq<Byte>, a: nat)
    requires 1 <= |bytes| && at + |bytes| <= |data| && at + |bytes| <= MaxOutput
    requires data[at..at + |bytes|] == bytes
    requires a + |bytes| <= |rom| && rom[a..a + |bytes|] == bytes
    ensures Execute(rom, a, data[..at], 0, |bytes|) == Ok(Running(a + |bytes|, data[..at + |bytes|]))
  {
    assert data[..at] + bytes == data[..at + |bytes|];
  }

  /** Command 1 repeats the byte of a run `find_rle8` counted. */
  lemma ByteRunDecodes(data: seq<Byte>, at: nat, n: nat, limit: nat, rom: seq<Byte>, a: nat)
    requires at < |data| && IsByteRun(data, at, n, limit) && at + n <= MaxOutput
    requires a < |rom| && rom[a] == data[at]
    ensures Execute(rom, a, data[..at], 1, n) == Ok(Running(a + 1, data[..at + n]))
  {
    RepeatByte(rom[a], n);
    assert rom[a..a + 1] == [rom[a]];
    assert data[..at] + Repeat([rom[a]], n) == data[..at + n];
  }

  /** Command 2 repeats the word of a run `find_rle16` counted. */
  lemma WordRunDecodes(data: seq<Byte>, at: nat, n: nat, limit: nat, rom: seq<Byte>, a: nat)
    requires IsWordRun(data, at, n, limit) && at + 2 * n <= |data| && at + 2 * n <= MaxOutput
    requires a + 2 <= |rom| && rom[a..a + 2] == WordAt(data, at, 0)
    ensures Execute(rom, a, data[..at], 2, n) == Ok(Running(a + 2, data[..at + 2 * n]))
  {
    var pattern := rom[a..a + 2];
    RepeatPair(pattern, n);
    var run := Repeat(pattern, n);
    forall k | 0 <= k < 2 * n
      ensures run[k] == data[at + k]
    {
      var i := k / 2;
      assert WordAt(data, at, i) == data[at + 2 * i..at + 2 * i + 2];
      assert WordAt(data, at, i) == pattern;
    }
    assert data[..at] + run == data[..at + 2 * n];
  }

  /** Command 3 counts upwards from the first byte of a run `find_rleinc`
      counted, provided the run does not wrap past 255. */
  lemma IncRunDecodes(data: seq<Byte>, at: nat, n: nat, limit: nat, rom: seq<Byte>, a: nat)
    requires at < |data| && IsIncRun(data, at, n, limit) && at + n <= MaxOutput
    requires data[at] + n - 1 <= 255
    requires a < |rom| && rom[a] == data[at]
    ensures Execute(rom, a, data[..at], 3, n) == Ok(Running(a + 1, data[..at + n]))
  {
    var run := IncrementRun(rom[a], n).value;
    assert data[..at] + run == data[..at + n];
  }

  /** Commands 4 to 6 copy, mirror or reverse the bytes a back-reference
      finder matched, read from the output decoded so far. */
  lemma BackRefDecodes(data: seq<Byte>, at: nat, c: Candidate, limit: nat, rom: seq<Byte>, a: nat)
    requires at < |data| && IsBackRef(data, at, c, limit) && at + c.size <= |data| && at + c.size <= MaxOutput
    requires a + 2 <= |rom| && c.payload.at <= 0xFFFF
    requires rom[a..a + 2] == [c.payload.at / 256, c.payload.at % 256]
    ensures Execute(rom, a, data[..at], c.kind, c.size) == Ok(Running(a + 2, data[..at + c.size]))
  {
    hide Execute;
    var off := c.payload.at;
    assert rom[a] == off / 256 && rom[a + 1] == off % 256;
    assert rom[a] as int * 256 + rom[a + 1] == off;
    assert InRange(c.kind, off, c.size, at);
    BackReferenceCommands(rom, a, data[..at], c.kind, c.size);
    var s := Execute(rom, a, data[..at], c.kind, c.size).value;
    forall k | at <= k < at + c.size
      ensures s.data[k] == data[k]
    {
      assert Matches(data, at, c.kind, off, k - at);
    }
    assert s.data == data[..at + c.size];
  }

  // ----- one record at a time -----

  /** The command code in a record's header. */
  function Code(e: Emitted): nat
  {
    match e
    case Literal(_) => 0
    case Chosen(c) => c.kind
  }

  /** The argument `make_header` receives for a record. */
  function Argument(e: Emitted): int
  {
    match e
    case Literal(bytes) => |bytes| - 1
    case Chosen(c) => HeaderArgument(c)
  }

  /** The operand bytes after a record's header. */
  function Operands(e: Emitted): seq<Byte>
    requires Emittable(e)
  {
    match e
    case Literal(bytes) => bytes
    case Chosen(c) => PayloadBytes(c.payload)
  }

  /** A counting run the decoder can rebuild: it does not wrap past 255. */
  predicate CountsWithoutWrap(e: Emitted)
  {
    e.Chosen? && e.c.kind == 3 && e.c.payload.Value? ==> e.c.payload.byte + e.c.size - 1 <= 255
  }

  /** The records a header can carry: any argument up to 1023 with the
      corrected threshold (`fixed`), and any but 32 and 1024 as written. */
  predicate HeaderFits(fixed: bool, e: Emitted)
  {
    && Emittable(e)
    && if fixed then Argument(e) <= 1023 else Argument(e) != 32 && Argument(e) != 1024
  }

  /** Every record of a trace has a header that reads back and, if it is a
      counting run, does not wrap. */
  predicate AllDecodable(fixed: bool, trace: seq<Emitted>)
  {
    forall e | e in trace :: HeaderFits(fixed, e) && CountsWithoutWrap(e)
  }

  /** A record's header, with the corrected threshold (`fixed`) or as
      `make_header` writes it. */
  function HeaderAs(fixed: bool, e: Emitted): seq<Byte>
    requires HeaderFits(fixed, e)
  {
    if fixed then MakeHeaderFixed(Code(e), Argument(e)) else MakeHeader(Code(e), Argument(e))
  }

  function EncodeAs(fixed: bool, e: Emitted): seq<Byte>
    requires HeaderFits(fixed, e)
  {
    HeaderAs(fixed, e) + Operands(e)
  }

  function SerializeAs(fixed: bool, trace: seq<Emitted>): seq<Byte>
    requires forall e | e in trace :: HeaderFits(fixed, e)
  {
    if trace == [] then [] else SerializeAs(fixed, trace[..|trace| - 1]) + EncodeAs(fixed, trace[|trace| - 1])
  }

  /** `compress`'s output with the header threshold corrected to 31. */
  function SerializeFixed(trace: seq<Emitted>): seq<Byte>
    requires forall e | e in trace :: HeaderFits(true, e)
  {
    SerializeAs(true, trace)
  }

  /** With the as-written header, the serialization is `compress`'s. */
  lemma {:induction false} SerializeAsWritten(trace: seq<Emitted>)
    requires forall e | e in trace :: HeaderFits(false, e)
    ensures SerializeAs(false, trace) == Serialize(trace)
  {
    if trace != [] {
      var e := trace[|trace| - 1];
      assert e in trace;
      assert forall x | x in trace[..|trace| - 1] :: x in trace;
      SerializeAsWritten(trace[..|trace| - 1]);
      assert Encode(e) == EncodeAs(false, e);
    }
  }

  /** The header of a record parses back to its command and length. */
  lemma HeaderReadsBack(fixed: bool, e: Emitted, rom: seq<Byte>, addr: nat) returns (a: nat)
    requires HeaderFits(fixed, e)
    requires addr + |EncodeAs(fixed, e)| <= |rom| && rom[addr..addr + |EncodeAs(fixed, e)|] == EncodeAs(fixed, e)
    ensures a + |Operands(e)| == addr + |EncodeAs(fixed, e)|
    ensures rom[a..a + |Operands(e)|] == Operands(e)
    ensures ParseHeader(rom, addr) == Ok(Parsed(Command(Code(e), Argument(e) + 1), a))
  {
    hide ParseHeader, MakeHeader, MakeHeaderFixed;
    var h := HeaderAs(fixed, e);
    a := addr + |h|;
    SplitSlice(rom, addr, h, Operands(e));
    if fixed {
      MakeHeaderFixedRoundTrip(Code(e), Argument(e), rom, addr);
    } else {
      MakeHeaderRoundTrip(Code(e), Argument(e), rom, addr);
    }
  }

  /** Where two pieces sit one after the other, each sits at its own place. */
  lemma SplitSlice(rom: seq<Byte>, addr: nat, x: seq<Byte>, y: seq<Byte>)
    requires addr + |x| + |y| <= |rom| && rom[addr..addr + |x + y|] == x + y
    ensures rom[addr..addr + |x|] == x
    ensures rom[addr + |x|..addr + |x| + |y|] == y
  {
    forall i | 0 <= i < |x|
      ensures rom[addr + i] == x[i]
    {
      assert rom[addr..addr + |x + y|][i] == (x + y)[i];
    }
    forall i | 0 <= i < |y|
      ensures rom[addr + |x| + i] == y[i]
    {
      assert rom[addr..addr + |x + y|][|x| + i] == (x + y)[|x| + i];
    }
  }

  /** The command a record's header announces turns its operands into the
      input bytes the record covers. */
  lemma OperandsDecode(data: seq<Byte>, fast: bool, limit: nat, at: nat, e: Emitted, rom: seq<Byte>, a: nat)
    requires ValidAt(data, fast, limit, at, e) && Emittable(e) && CountsWithoutWrap(e)
    requires at + Width(e) <= MaxOutput
    requires a + |Operands(e)| <= |rom| && rom[a..a + |Operands(e)|] == Operands(e)
    ensures at + Width(e) <= |data| && 0 <= Argument(e)
    ensures Execute(rom, a, data[..at], Code(e), Argument(e) + 1) == Ok(Running(a + |Operands(e)|, data[..at + Width(e)]))
  {
    hide Execute;
    var ops := Operands(e);
    match e
    case Literal(bytes) =>
      LiteralDecodes(data, at, bytes, rom, a);
    case Chosen(c) =>
      AcceptedFits(data, at, fast, limit, c);
      OfferShape(data, at, fast, limit, c);
      if c.kind == 1 {
        assert rom[a] == ops[0];
        ByteRunDecodes(data, at, c.size, limit, rom, a);
      } else if c.kind == 2 {
        WordRunDecodes(data, at, c.size / 2, limit, rom, a);
      } else if c.kind == 3 {
        assert rom[a] == ops[0];
        IncRunDecodes(data, at, c.size, limit, rom, a);
      } else {
        BackRefDecodes(data, at, c, limit, rom, a);
      }
  }

  /** One iteration of the decoder turns a record the encoder chose at `at`
      into the input bytes it covers. */
  lemma RecordDecodes(fixed: bool, data: seq<Byte>, fast: bool, limit: nat, at: nat, e: Emitted, rom: seq<Byte>, addr: nat)
    requires ValidAt(data, fast, limit, at, e) && HeaderFits(fixed, e) && CountsWithoutWrap(e)
    requires at + Width(e) <= MaxOutput
    requires addr + |EncodeAs(fixed, e)| <= |rom| && rom[addr..addr + |EncodeAs(fixed, e)|] == EncodeAs(fixed, e)
    ensures at + Width(e) <= |data|
    ensures Step(rom, addr, data[..at]) == Ok(Running(addr + |EncodeAs(fixed, e)|, data[..at + Width(e)]))
  {
    hide ValidAt, Execute;
    var a := HeaderReadsBack(fixed, e, rom, addr);
    OperandsDecode(data, fast, limit, at, e, rom, a);
  }

  // ----- the whole output -----

  /** Decoding the records of a parse of data[..end], followed by anything,
      reaches the end of the records with data[..end] as output. */
  lemma {:induction false} TraceDecodes(fixed: bool, data: seq<Byte>, fast: bool, limit: nat, trace: seq<Emitted>, end: nat, rest: seq<Byte>)
    requires Parses(data, fast, limit, trace, end) && end <= |data| && end <= MaxOutput
    requires AllDecodable(fixed, trace)
    ensures var rom := SerializeAs(fixed, trace) + rest;
            DecodeFrom(rom, 0, []) == DecodeFrom(rom, |SerializeAs(fixed, trace)|, data[..end])
    decreases |trace|
  {
    hide DecodeFrom, Step, ValidAt;
    var rom := SerializeAs(fixed, trace) + rest;
    if trace == [] {
      assert data[..end] == [];
    } else {
      hide Parses, SerializeAs, EncodeAs, HeaderFits, CountsWithoutWrap, AllDecodable;
      var prefix, e, start := LastRecord(fixed, data, fast, limit, trace, end);
      var encoded := EncodeAs(fixed, e);
      var front := SerializeAs(fixed, prefix);
      TraceDecodes(fixed, data, fast, limit, prefix, start, encoded + rest);
      assert front + (encoded + rest) == rom;
      RecordExtends(fixed, data, fast, limit, start, e, front, rest);
    }
  }

  /** Decoding a record that follows other bytes extends the output so far by
      the input bytes the record covers. */
  lemma RecordExtends(fixed: bool, data: seq<Byte>, fast: bool, limit: nat, start: nat, e: Emitted, front: seq<Byte>, rest: seq<Byte>)
    requires ValidAt(data, fast, limit, start, e) && HeaderFits(fixed, e) && CountsWithoutWrap(e)
    requires start + Width(e) <= MaxOutput
    ensures start + Width(e) <= |data|
    ensures var rom := front + EncodeAs(fixed, e) + rest;
            DecodeFrom(rom, |front|, data[..start]) == DecodeFrom(rom, |front| + |EncodeAs(fixed, e)|, data[..start + Width(e)])
  {
    hide DecodeFrom, Step, ValidAt, EncodeAs, HeaderFits;
    var encoded := EncodeAs(fixed, e);
    var rom := front + encoded + rest;
    assert rom[|front|..|front| + |encoded|] == encoded;
    RecordDecodes(fixed, data, fast, limit, start, e, rom, |front|);
    DecodeOneStep(rom, |front|, data[..start], |front| + |encoded|, data[..start + Width(e)]);
  }

  /** The last record of a parse of data[..end] covers its tail, and the
      records before it parse what precedes it. */
  lemma LastRecord(fixed: bool, data: seq<Byte>, fast: bool, limit: nat, trace: seq<Emitted>, end: nat)
    returns (prefix: seq<Emitted>, e: Emitted, start: nat)
    requires Parses(data, fast, limit, trace, end) && trace != []
    requires AllDecodable(fixed, trace)
    ensures prefix == trace[..|trace| - 1] && e == trace[|trace| - 1] && start + Width(e) == end
    ensures Parses(data, fast, limit, prefix, start) && ValidAt(data, fast, limit, start, e)
    ensures HeaderFits(fixed, e) && CountsWithoutWrap(e)
    ensures AllDecodable(fixed, prefix)
    ensures SerializeAs(fixed, trace) == SerializeAs(fixed, prefix) + EncodeAs(fixed, e)
  {
    e := trace[|trace| - 1];
    prefix := trace[..|trace| - 1];
    start := end - Width(e);
    assert e in trace && forall x | x in prefix :: x in trace;
  }

  /** A successful iteration hands the rest of the decode to the next one. */
  lemma DecodeOneStep(rom: seq<Byte>, addr: nat, out: seq<Byte>, next: nat, more: seq<Byte>)
    requires |out| <= MaxOutput && Step(rom, addr, out) == Ok(Running(next, more))
    ensures DecodeFrom(rom, addr, out) == DecodeFrom(rom, next, more)
  {
  }

  /** Decoding the records followed by the sentinel gives back the input. */
  lemma RoundTripAs(fixed: bool, data: seq<Byte>, fast: bool, limit: nat, trace: seq<Emitted>)
    requires Parses(data, fast, limit, trace, |data|) && |data| <= MaxOutput
    requires AllDecodable(fixed, trace)
    ensures DecodeFrom(SerializeAs(fixed, trace) + [0xFF], 0, []) == Ok(data)
  {
    var rom := SerializeAs(fixed, trace) + [0xFF];
    TraceDecodes(fixed, data, fast, limit, trace, |data|, [0xFF]);
    ParseHeaderMeaning(rom, |SerializeAs(fixed, trace)|);
    assert data[..|data|] == data;
  }

  /** Every record the encoder chooses with scan limit `limit` (at most 1025)
      in an input of at most 65 536 bytes can be written, and its header
      argument is below the limit. */
  lemma RecordFits(data: seq<Byte>, fast: bool, limit: nat, at: nat, e: Emitted)
    requires ValidAt(data, fast, limit, at, e) && limit <= MaxScan && |data| <= 65536
    ensures Emittable(e) && 0 <= Argument(e) < limit
  {
    if e.Chosen? {
      OfferShape(data, at, fast, limit, e.c);
    }
  }

  /** Every record of a parse with scan limit `limit` can be written, and its
      header argument is below the limit. */
  lemma {:induction false} ParsedFits(data: seq<Byte>, fast: bool, limit: nat, trace: seq<Emitted>, end: nat)
    requires Parses(data, fast, limit, trace, end) && limit <= MaxScan && |data| <= 65536
    ensures forall e | e in trace :: Emittable(e) && 0 <= Argument(e) < limit
    decreases |trace|
  {
    if trace != [] {
      var prefix := trace[..|trace| - 1];
      var e := trace[|trace| - 1];
      ParsedFits(data, fast, limit, prefix, end - Width(e));
      RecordFits(data, fast, limit, end - Width(e), e);
      assert trace == prefix + [e];
    }
  }

  /** `decompress` inverts `compress` on every input whose records avoid the
      two header arguments `make_header` gets wrong and whose counting runs do
      not wrap: `compress` returns Serialize(trace) + [0xFF] for a trace that
      parses the input with the scan limit 1025. */
  lemma RoundTrip(data: seq<Byte>, fast: bool, trace: seq<Emitted>)
    requires Parses(data, fast, MaxScan, trace, |data|) && |data| <= MaxOutput
    requires forall e | e in trace :: Argument(e) != 32 && Argument(e) != 1024 && CountsWithoutWrap(e)
    ensures forall e | e in trace :: Emittable(e)
    ensures DecodeFrom(Serialize(trace) + [0xFF], 0, []) == Ok(data)
  {
    ParsedFits(data, fast, MaxScan, trace, |data|);
    assert AllDecodable(false, trace);
    SerializeAsWritten(trace);
    RoundTripAs(false, data, fast, MaxScan, trace);
  }

  /** The corrected encoder: scan limit and literal buffer of 1024, so every
      header argument is at most 1023, and the header threshold at 31. Every
      parse it makes whose counting runs do not wrap decodes back to the
      input. */
  lemma RoundTripFixed(data: seq<Byte>, fast: bool, trace: seq<Emitted>)
    requires Parses(data, fast, CorrectedScan, trace, |data|) && |data| <= MaxOutput
    requires forall e | e in trace :: CountsWithoutWrap(e)
    ensures forall e | e in trace :: HeaderFits(true, e)
    ensures DecodeFrom(SerializeFixed(trace) + [0xFF], 0, []) == Ok(data)
  {
    ParsedFits(data, fast, CorrectedScan, trace, |data|);
    assert AllDecodable(true, trace);
    RoundTripAs(true, data, fast, CorrectedScan, trace);
  }
}
