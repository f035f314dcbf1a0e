/** Two inputs on which `decompress` does not give back what `compress`
    wrote, and the counting run the decoder evidently meant to produce. */
module Findings {
  import opened Types
  import opened Header
  import opened Finders
  import opened Decoder
  import opened Encoder
  import opened RoundTrip

  // ----- facts about parses -----

  /** The first record of a parse is the encoder's choice at position 0. */
  lemma {:induction false} FirstRecord(data: seq<Byte>, fast: bool, limit: nat, trace: seq<Emitted>, end: nat)
    requires Parses(data, fast, limit, trace, end) && trace != []
    ensures ValidAt(data, fast, limit, 0, trace[0]) && Width(trace[0]) <= end
    decreases |trace|
  {
    var prefix := trace[..|trace| - 1];
    var e := trace[|trace| - 1];
    if prefix != [] {
      FirstRecord(data, fast, limit, prefix, end - Width(e));
      assert prefix[0] == trace[0];
    }
  }

  /** Every record covers at least one byte. */
  lemma RecordNotEmpty(data: seq<Byte>, fast: bool, limit: nat, at: nat, e: Emitted)
    requires ValidAt(data, fast, limit, at, e)
    ensures 1 <= Width(e)
  {
  }

  /** Only a parse of one record has a first record that covers everything. */
  lemma {:induction false} FirstRecordShorter(data: seq<Byte>, fast: bool, limit: nat, trace: seq<Emitted>, end: nat)
    requires Parses(data, fast, limit, trace, end) && |trace| > 1
    ensures Width(trace[0]) < end
  {
    var prefix := trace[..|trace| - 1];
    var e := trace[|trace| - 1];
    RecordNotEmpty(data, fast, limit, end - Width(e), e);
    FirstRecord(data, fast, limit, prefix, end - Width(e));
    assert prefix[0] == trace[0];
  }

  /** Where a byte went to the literal buffer, a longest candidate was offered
      there and turned down. */
  lemma RejectedCandidate(data: seq<Byte>, fast: bool, limit: nat, q: nat) returns (c: Candidate)
    requires RejectedAt(data, fast, limit, q)
    ensures q < |data| && Offers(data, q, fast, limit, c) && Maximal(data, q, fast, limit, c) && !Accepted(c)
  {
    c :| Offers(data, q, fast, limit, c) && Maximal(data, q, fast, limit, c) && !Accepted(c);
  }

  /** No back-reference is offered at the first position: nothing precedes it. */
  lemma NoBackRefAtStart(data: seq<Byte>, fast: bool, limit: nat, c: Candidate)
    requires 0 < |data| && Offers(data, 0, fast, limit, c)
    ensures 1 <= c.kind <= 3
  {
  }

  // ----- a run of 1025 equal bytes -----

  /** 1025 zero bytes; their 513th word is cut short by the end. */
  function Zeros(): (z: seq<Byte>)
    ensures |z| == 1025 && forall k :: 0 <= k < 1025 ==> z[k] == 0
    ensures |WordAt(z, 0, 512)| == 1 && |WordAt(z, 0, 0)| == 2
  {
    seq(1025, _ => 0)
  }

  /** Among the candidates at 0 in 1025 zero bytes, the byte run is the only
      one that covers everything. */
  lemma ZerosCandidates(fast: bool, c: Candidate)
    requires Offers(Zeros(), 0, fast, MaxScan, c)
    ensures c.size <= 1025
    ensures c.size == 1025 ==> c == Candidate(1, 1025, Value(0))
  {
    var z := Zeros();
    NoBackRefAtStart(z, fast, MaxScan, c);
    assert z[1] != (z[0] + 1) % 256;
  }

  /** At 0 in 1025 zero bytes, a longest candidate is the byte run, which
      passes the size test. */
  lemma ZerosLongest(fast: bool, c: Candidate)
    requires Offers(Zeros(), 0, fast, MaxScan, c) && Maximal(Zeros(), 0, fast, MaxScan, c)
    ensures c == Candidate(1, 1025, Value(0)) && Accepted(c)
  {
    assert Offers(Zeros(), 0, fast, MaxScan, Candidate(1, 1025, Value(0)));
    ZerosCandidates(fast, c);
  }

  /** A parse of 1025 zero bytes starts with the byte run: no literal, since
      the run is offered and long enough to be accepted. */
  lemma ZerosStart(fast: bool, trace: seq<Emitted>)
    requires Parses(Zeros(), fast, MaxScan, trace, 1025) && trace != []
    ensures trace[0] == Chosen(Candidate(1, 1025, Value(0)))
  {
    FirstRecord(Zeros(), fast, MaxScan, trace, 1025);
    match trace[0]
    case Literal(_) =>
      var c := RejectedCandidate(Zeros(), fast, MaxScan, 0);
      ZerosLongest(fast, c);
      assert false;
    case Chosen(c) =>
      ZerosLongest(fast, c);
  }

  /** Every parse of 1025 zero bytes is the single byte run. */
  lemma ZerosParse(fast: bool, trace: seq<Emitted>)
    requires Parses(Zeros(), fast, MaxScan, trace, 1025)
    ensures trace == [Chosen(Candidate(1, 1025, Value(0)))]
  {
    ZerosStart(fast, trace);
    if |trace| > 1 {
      FirstRecordShorter(Zeros(), fast, MaxScan, trace, 1025);
    }
  }

  /** What `decompress` makes of [0xE8, 0x00, 0x00, 0xFF]: command 2 of length
      1 consumes the next two bytes, the sentinel among them, and the next
      header lies past the end. */
  lemma LongRunDecodes()
    ensures DecodeFrom([0xE8, 0x00, 0x00, 0xFF], 0, []) == Err(Truncated)
  {
    var rom: seq<Byte> := [0xE8, 0x00, 0x00, 0xFF];
    ParseHeaderMeaning(rom, 0);
    assert ParseHeader(rom, 0) == Ok(Parsed(Command(2, 1), 2));
    assert Repeat(rom[2..4], 1) == [0x00, 0xFF];
    assert Step(rom, 0, []) == Ok(Running(4, [0x00, 0xFF]));
  }

  /** A run of 1025 equal bytes is found whole by `find_rle8` (its scan limit
      is 1025), accepted, and written with `make_header(1, 1024)`. That header
      reads back as command 2 with length 1: the decoder repeats the next two
      bytes once, and then runs out of input looking for the following header.
      Every parse of the input is the single run, so this is `compress`'s
      output for it. */
  lemma LongRunBreaks(fast: bool, trace: seq<Emitted>)
    requires Parses(Zeros(), fast, MaxScan, trace, 1025)
    ensures trace == [Chosen(Candidate(1, 1025, Value(0)))]
    ensures Serialize(trace) + [0xFF] == [0xE8, 0x00, 0x00, 0xFF]
    ensures DecodeFrom(Serialize(trace) + [0xFF], 0, []) == Err(Truncated)
  {
    ZerosParse(fast, trace);
    assert Serialize(trace) == [0xE8, 0x00, 0x00];
    LongRunDecodes();
  }

  /** No counting run in a parse of zero bytes wraps: from 0 it stops after
      one byte. */
  lemma {:induction false} ZerosNoWrap(fast: bool, limit: nat, trace: seq<Emitted>, end: nat)
    requires Parses(Zeros(), fast, limit, trace, end)
    ensures forall e | e in trace :: CountsWithoutWrap(e)
    decreases |trace|
  {
    if trace != [] {
      var prefix := trace[..|trace| - 1];
      var e := trace[|trace| - 1];
      var at := end - Width(e);
      ZerosNoWrap(fast, limit, prefix, at);
      ZerosRecordNoWrap(fast, limit, at, e);
      assert trace == prefix + [e];
    }
  }

  /** A record chosen in zero bytes is not a wrapping counting run. */
  lemma ZerosRecordNoWrap(fast: bool, limit: nat, at: nat, e: Emitted)
    requires ValidAt(Zeros(), fast, limit, at, e)
    ensures CountsWithoutWrap(e)
  {
    match e
    case Literal(_) =>
    case Chosen(c) =>
      if c.kind == 3 {
        ZerosCountingRunShort(at, c.size, limit);
      }
  }

  /** In zero bytes a counting run stops after its first byte. */
  lemma ZerosCountingRunShort(at: nat, n: nat, limit: nat)
    requires at < 1025 && IsIncRun(Zeros(), at, n, limit)
    ensures n == 1
  {
    var k := at + Min(n, 2) - 1;
    assert Zeros()[k] == 0 && Zeros()[k] == (Zeros()[at] + (k - at)) % 256;
  }

  /** The corrected encoder (scan limit 1024, header threshold 31) gives 1025
      zero bytes back: whatever records it chooses, they decode to the
      input. */
  lemma ZerosFixedRoundTrip(fast: bool, trace: seq<Emitted>)
    requires Parses(Zeros(), fast, CorrectedScan, trace, 1025)
    ensures forall e | e in trace :: HeaderFits(true, e)
    ensures DecodeFrom(SerializeFixed(trace) + [0xFF], 0, []) == Ok(Zeros())
  {
    ZerosNoWrap(fast, CorrectedScan, trace, 1025);
    RoundTripFixed(Zeros(), fast, trace);
  }

  // ----- a counting run that passes 255 -----

  /** The bytes 0xFE, 0xFF, 0x00, 0x01. */
  function Wrapping(): (w: seq<Byte>)
    ensures w == [0xFE, 0xFF, 0x00, 0x01]
  {
    [0xFE, 0xFF, 0x00, 0x01]
  }

  /** Among the candidates at 0 in Wrapping(), the counting run is the only one
      that covers everything. */
  lemma WrappingCandidates(fast: bool, c: Candidate)
    requires Offers(Wrapping(), 0, fast, MaxScan, c)
    ensures c.size <= 4
    ensures c.size == 4 ==> c == Candidate(3, 4, Value(0xFE))
  {
    var w := Wrapping();
    NoBackRefAtStart(w, fast, MaxScan, c);
    assert w[1] != w[0];
    assert WordAt(w, 0, 0) == [0xFE, 0xFF] && WordAt(w, 0, 1) == [0x00, 0x01];
  }

  /** At 0 in Wrapping(), a longest candidate is the counting run, which
      passes the size test. */
  lemma WrappingLongest(fast: bool, c: Candidate)
    requires Offers(Wrapping(), 0, fast, MaxScan, c) && Maximal(Wrapping(), 0, fast, MaxScan, c)
    ensures c == Candidate(3, 4, Value(0xFE)) && Accepted(c)
  {
    assert Offers(Wrapping(), 0, fast, MaxScan, Candidate(3, 4, Value(0xFE)));
    WrappingCandidates(fast, c);
  }

  /** A parse of Wrapping() starts with the counting run. */
  lemma WrappingStart(fast: bool, trace: seq<Emitted>)
    requires Parses(Wrapping(), fast, MaxScan, trace, 4) && trace != []
    ensures trace[0] == Chosen(Candidate(3, 4, Value(0xFE)))
  {
    FirstRecord(Wrapping(), fast, MaxScan, trace, 4);
    match trace[0]
    case Literal(_) =>
      var c := RejectedCandidate(Wrapping(), fast, MaxScan, 0);
      WrappingLongest(fast, c);
      assert false;
    case Chosen(c) =>
      WrappingLongest(fast, c);
  }

  /** Every parse of Wrapping() is the single counting run. */
  lemma WrappingParse(fast: bool, trace: seq<Emitted>)
    requires Parses(Wrapping(), fast, MaxScan, trace, 4)
    ensures trace == [Chosen(Candidate(3, 4, Value(0xFE)))]
  {
    WrappingStart(fast, trace);
    if |trace| > 1 {
      FirstRecordShorter(Wrapping(), fast, MaxScan, trace, 4);
    }
  }

  /** What `decompress` makes of [0x63, 0xFE, 0xFF]: command 3 of length 4 from
      0xFE, which fails at 0x100. */
  lemma CountingRunDecodes()
    ensures DecodeFrom([0x63, 0xFE, 0xFF], 0, []) == Err(Overflow)
  {
    var rom: seq<Byte> := [0x63, 0xFE, 0xFF];
    ParseHeaderMeaning(rom, 0);
  }

  /** `find_rleinc` counts 0xFE, 0xFF, 0x00, 0x01 as one run, because it
      compares with `(match + i) & 0xFF`; the decoder's command 3 raises on
      the third value, 0x100, which `to_bytes(1, ...)` cannot hold. Every parse
      of the input is the single run, so this is `compress`'s output for it. */
  lemma CountingRunBreaks(fast: bool, trace: seq<Emitted>)
    requires Parses(Wrapping(), fast, MaxScan, trace, 4)
    ensures trace == [Chosen(Candidate(3, 4, Value(0xFE)))]
    ensures Serialize(trace) + [0xFF] == [0x63, 0xFE, 0xFF]
    ensures DecodeFrom(Serialize(trace) + [0xFF], 0, []) == Err(Overflow)
  {
    WrappingParse(fast, trace);
    assert Serialize(trace) == [0x63, 0xFE];
    CountingRunDecodes();
  }

  // ----- the counting run with wrap-around -----

  /** Command 3 as the encoder counts: n, n + 1, ... modulo 256. */
  function IncrementRunWrapping(n: Byte, length: nat): (r: seq<Byte>)
    ensures |r| == length
    ensures length > 0 ==> r[0] == n
  {
    seq(length, k requires 0 <= k < length => (n + k) % 256)
  }

  /** The wrapping run rebuilds every run `find_rleinc` counts, wrapping or
      not. */
  lemma WrappingRunRebuilds(data: seq<Byte>, pos: nat, n: nat, limit: nat)
    requires pos < |data| && IsIncRun(data, pos, n, limit)
    ensures IncrementRunWrapping(data[pos], n) == data[pos..pos + n]
  {
  }

  /** Where command 3 as written succeeds, the wrapping run agrees with it; it
      fails exactly where the run passes 255. */
  lemma WrappingExtendsWritten(n: Byte, length: nat)
    ensures IncrementRun(n, length).Ok? <==> n + length - 1 <= 255
    ensures IncrementRun(n, length).Ok? ==> IncrementRun(n, length).value == IncrementRunWrapping(n, length)
  {
  }
}
