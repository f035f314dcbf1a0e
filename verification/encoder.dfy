/** The encoder `compress`: at every position it runs the finders, keeps one
    of the longest candidates, emits it when it beats plain bytes and otherwise
    buffers the byte as a literal; the output ends with the sentinel 0xFF. */
module Encoder {
  import opened Types
  import opened Header
  import opened Finders

  /** Every candidate the finders can propose at `pos`; the mirrored and the
      backwards back-references only when `fast` is off. `limit` is the finders'
      scan limit: 1025 as written. */
  predicate Offers(data: seq<Byte>, pos: nat, fast: bool, limit: nat, c: Candidate)
    requires pos < |data|
  {
    if c.kind == 1 then c.payload == Value(data[pos]) && IsByteRun(data, pos, c.size, limit)
    else if c.kind == 2 then
      c.payload == Pattern(WordAt(data, pos, 0)) && c.size % 2 == 0 && IsWordRun(data, pos, c.size / 2, limit)
    else if c.kind == 3 then c.payload == Value(data[pos]) && IsIncRun(data, pos, c.size, limit)
    else (c.kind == 4 || !fast) && IsBackRef(data, pos, c, limit)
  }

  /** No candidate at `pos` covers more input than `c`. */
  ghost predicate Maximal(data: seq<Byte>, pos: nat, fast: bool, limit: nat, c: Candidate)
    requires pos < |data|
  {
    forall other :: Offers(data, pos, fast, limit, other) ==> other.size <= c.size
  }

  /** `max(candidates, key=lambda item: item[1])`: the first candidate of
      largest size. */
  function Longest(cs: seq<Candidate>): (r: Candidate)
    requires |cs| > 0
    ensures r in cs
    ensures forall c :: c in cs ==> c.size <= r.size
  {
    if |cs| == 1 then cs[0]
    else
      var rest := Longest(cs[1..]);
      if cs[0].size >= rest.size then cs[0] else rest
  }

  function Present(o: Option<Candidate>): seq<Candidate>
  {
    if o.Some? then [o.value] else []
  }

  /** Runs the four (fast) or six finders at `pos` and keeps one of the longest
      candidates. */
  method SelectCandidate(data: seq<Byte>, pos: nat, fast: bool, limit: nat) returns (best: Candidate)
    requires pos < |data| && 1 <= limit
    ensures Offers(data, pos, fast, limit, best)
    ensures Maximal(data, pos, fast, limit, best)
  {
    var rle8 := FindRle8(data, pos, limit);
    var rle16 := FindRle16(data, pos, limit);
    var rleinc := FindRleInc(data, pos, limit);
    var backref := FindBackrefs(data, pos, 4, limit);
    var candidates := [rle8, rle16, rleinc] + Present(backref);
    var rotBackref, backBackref := None, None;
    if !fast {
      rotBackref := FindBackrefs(data, pos, 5, limit);
      backBackref := FindBackrefs(data, pos, 6, limit);
      candidates := candidates + Present(rotBackref) + Present(backBackref);
    }
    assert forall c | c in candidates :: Offers(data, pos, fast, limit, c) by {
      assert Offers(data, pos, fast, limit, rle8) && Offers(data, pos, fast, limit, rle16) && Offers(data, pos, fast, limit, rleinc);
      assert backref.Some? ==> Offers(data, pos, fast, limit, backref.value);
      assert rotBackref.Some? ==> Offers(data, pos, fast, limit, rotBackref.value);
      assert backBackref.Some? ==> Offers(data, pos, fast, limit, backBackref.value);
    }
    hide Offers;
    best := Longest(candidates);
    assert rle8 in candidates && rle16 in candidates && rleinc in candidates;
    assert backref.Some? ==> backref.value in candidates;
    assert rotBackref.Some? ==> rotBackref.value in candidates;
    assert backBackref.Some? ==> backBackref.value in candidates;
    LongestIsMaximal(data, pos, fast, limit, rle8, rle16, rleinc, backref, rotBackref, backBackref, best);
  }

  /** What a back-reference finder's result says about every match of its
      kind at `pos`: none is longer, and there is none when it found
      nothing. */
  ghost predicate BackRefsBounded(data: seq<Byte>, pos: nat, kind: nat, limit: nat, found: Option<Candidate>)
  {
    && (found.Some? ==>
          forall off: nat, n: nat :: 1 <= n && IsMatchLength(data, pos, kind, off, n, limit) ==> n <= found.value.size)
    && (found.None? ==> forall off: nat, n: nat :: 1 <= n ==> !IsMatchLength(data, pos, kind, off, n, limit))
  }

  /** A candidate at least as long as every finder's result is a longest
      candidate: each finder's result bounds its own kind. */
  lemma LongestIsMaximal(data: seq<Byte>, pos: nat, fast: bool, limit: nat,
                         rle8: Candidate, rle16: Candidate, rleinc: Candidate,
                         backref: Option<Candidate>, rotBackref: Option<Candidate>, backBackref: Option<Candidate>,
                         best: Candidate)
    requires pos < |data| && rle8.kind == 1 && rle16.kind == 2 && rleinc.kind == 3
    requires Offers(data, pos, fast, limit, rle8) && Offers(data, pos, fast, limit, rle16) && Offers(data, pos, fast, limit, rleinc)
    requires rle8.size <= best.size && rle16.size <= best.size && rleinc.size <= best.size
    requires BackRefsBounded(data, pos, 4, limit, backref)
    requires !fast ==> BackRefsBounded(data, pos, 5, limit, rotBackref) && BackRefsBounded(data, pos, 6, limit, backBackref)
    requires backref.Some? ==> backref.value.size <= best.size
    requires rotBackref.Some? ==> rotBackref.value.size <= best.size
    requires backBackref.Some? ==> backBackref.value.size <= best.size
    ensures Maximal(data, pos, fast, limit, best)
  {
    forall other | Offers(data, pos, fast, limit, other)
      ensures other.size <= best.size
    {
      if other.kind == 1 {
        RunBound(data, pos, fast, limit, other, rle8);
      } else if other.kind == 2 {
        RunBound(data, pos, fast, limit, other, rle16);
      } else if other.kind == 3 {
        RunBound(data, pos, fast, limit, other, rleinc);
      } else if other.kind == 4 {
        BackRefBound(data, pos, fast, limit, other, backref);
      } else if other.kind == 5 {
        BackRefBound(data, pos, fast, limit, other, rotBackref);
      } else {
        BackRefBound(data, pos, fast, limit, other, backBackref);
      }
    }
  }

  /** A run finder's count bounds every run of its kind: the run is unique. */
  lemma RunBound(data: seq<Byte>, pos: nat, fast: bool, limit: nat, other: Candidate, found: Candidate)
    requires pos < |data| && 1 <= other.kind <= 3 && found.kind == other.kind
    requires Offers(data, pos, fast, limit, other) && Offers(data, pos, fast, limit, found)
    ensures other.size <= found.size
  {
    if other.kind == 2 {
      RunLengthsUnique(data, pos, other.size / 2, found.size / 2, limit);
    } else {
      RunLengthsUnique(data, pos, other.size, found.size, limit);
    }
  }

  /** A back-reference finder's result bounds every back-reference of its
      kind. */
  lemma BackRefBound(data: seq<Byte>, pos: nat, fast: bool, limit: nat, other: Candidate, found: Option<Candidate>)
    requires pos < |data| && 4 <= other.kind <= 6 && Offers(data, pos, fast, limit, other)
    requires BackRefsBounded(data, pos, other.kind, limit, found)
    ensures found.Some? && other.size <= found.value.size
  {
    assert IsMatchLength(data, pos, other.kind, other.payload.at, other.size, limit);
  }

  /** The test on line 253: a run of one byte or of counting bytes is used from
      four bytes on, every other kind from five. */
  predicate Accepted(c: Candidate)
    ensures Accepted(c) ==> c.size >= 4
    ensures c.size >= 5 ==> Accepted(c)
  {
    if c.kind == 1 || c.kind == 3 then c.size > 3 else c.size > 4
  }

  /** The payload each kind of candidate carries, and the length bounds the
      finders keep: a back-reference points before the cursor, and every
      candidate's header argument is below the scan limit. */
  lemma OfferShape(data: seq<Byte>, pos: nat, fast: bool, limit: nat, c: Candidate)
    requires pos < |data| && Offers(data, pos, fast, limit, c)
    ensures 1 <= c.kind <= 6 && 0 <= HeaderArgument(c) < limit
    ensures c.kind == 1 || c.kind == 3 ==> c.payload.Value?
    ensures c.kind == 2 ==> c.payload.Pattern?
    ensures c.kind >= 4 ==> c.payload.Offset? && c.payload.at < pos
  {
  }

  /** An accepted candidate lies inside the input. */
  lemma AcceptedFits(data: seq<Byte>, pos: nat, fast: bool, limit: nat, c: Candidate)
    requires pos < |data| && Offers(data, pos, fast, limit, c) && Accepted(c)
    ensures pos + c.size <= |data|
    ensures c.kind == 2 ==> |WordAt(data, pos, 0)| == 2
  {
    if c.kind == 2 {
      var n := c.size / 2;
      assert WordAt(data, pos, 1) == WordAt(data, pos, 0);
      assert WordAt(data, pos, n - 1) == WordAt(data, pos, 0);
    } else if c.kind >= 4 {
      assert Matches(data, pos, c.kind, c.payload.at, c.size - 1);
    }
  }

  /** One record of the output: a flush of buffered literal bytes, or a chosen
      candidate. */
  datatype Emitted = Literal(bytes: seq<Byte>) | Chosen(c: Candidate)

  /** The argument `make_header` receives for a candidate: its length minus
      one, counted in words for kind 2. */
  function HeaderArgument(c: Candidate): (r: int)
    ensures c.kind == 2 ==> 2 * (r + 1) <= c.size <= 2 * (r + 1) + 1
    ensures c.kind != 2 ==> r + 1 == c.size
  {
    if c.kind == 2 then c.size / 2 - 1 else c.size - 1
  }

  /** How many input bytes a record covers. */
  function Width(e: Emitted): nat
  {
    match e
    case Literal(bytes) => |bytes|
    case Chosen(c) => c.size
  }

  /** The records the encoder can write without raising. */
  predicate Emittable(e: Emitted)
  {
    match e
    case Literal(bytes) => 1 <= |bytes| <= 1025
    case Chosen(c) =>
      && 1 <= c.kind <= 6 && 0 <= HeaderArgument(c) <= 1024
      && (c.payload.Offset? ==> c.payload.at <= 0xFFFF)
  }

  /** The payload after a chosen header: one byte, the 2-byte pattern, or the
      offset as two big-endian bytes. */
  function PayloadBytes(p: Payload): (r: seq<Byte>)
    requires p.Offset? ==> p.at <= 0xFFFF
    ensures p.Value? ==> r == [p.byte]
    ensures p.Offset? ==> |r| == 2 && r[0] as int * 256 + r[1] as int == p.at
  {
    match p
    case Value(b) => [b]
    case Pattern(bytes) => bytes
    case Offset(at) => [at / 256, at % 256]
  }

  /** The bytes a record contributes to the output. */
  function Encode(e: Emitted): (r: seq<Byte>)
    requires Emittable(e)
    ensures |r| >= 1 && r[0] != 0xFF
  {
    match e
    case Literal(bytes) => MakeHeader(0, |bytes| - 1) + bytes
    case Chosen(c) => MakeHeader(c.kind, HeaderArgument(c)) + PayloadBytes(c.payload)
  }

  function Serialize(trace: seq<Emitted>): (r: seq<Byte>)
    requires forall e | e in trace :: Emittable(e)
    ensures |trace| <= |r|
    ensures trace != [] ==> r[0] != 0xFF
  {
    if trace == [] then [] else Serialize(trace[..|trace| - 1]) + Encode(trace[|trace| - 1])
  }

  /** At `q` some longest candidate was turned down, so the byte may have gone
      to the literal buffer (a tie with an accepted candidate may go either
      way). */
  ghost predicate RejectedAt(data: seq<Byte>, fast: bool, limit: nat, q: nat)
  {
    q < |data| && exists c :: Offers(data, q, fast, limit, c) && Maximal(data, q, fast, limit, c) && !Accepted(c)
  }

  /** A record is the encoder's choice at `at`: literal bytes copied from the
      input where some longest candidate was turned down, or a longest
      candidate that passed the test. */
  ghost predicate ValidAt(data: seq<Byte>, fast: bool, limit: nat, at: nat, e: Emitted)
  {
    && at < |data|
    && match e
       case Literal(bytes) =>
         && 1 <= |bytes| <= limit && at + |bytes| <= |data| && data[at..at + |bytes|] == bytes
         && forall q :: at <= q < at + |bytes| ==> RejectedAt(data, fast, limit, q)
       case Chosen(c) =>
         Offers(data, at, fast, limit, c) && Maximal(data, at, fast, limit, c) && Accepted(c) && at + c.size <= |data|
  }

  /** The records cover data[..end] one after another, each the encoder's
      choice where it starts. */
  ghost predicate Parses(data: seq<Byte>, fast: bool, limit: nat, trace: seq<Emitted>, end: nat)
    decreases |trace|
  {
    if trace == [] then end == 0
    else
      var e := trace[|trace| - 1];
      && Width(e) <= end
      && Parses(data, fast, limit, trace[..|trace| - 1], end - Width(e))
      && ValidAt(data, fast, limit, end - Width(e), e)
  }

  /** Literal records follow one another only after a full buffer of `limit`
      bytes. */
  predicate FlushedWhenFull(trace: seq<Emitted>, limit: nat)
  {
    forall i :: 0 <= i < |trace| - 1 && trace[i].Literal? && trace[i + 1].Literal? ==> |trace[i].bytes| == limit
  }

  /** The last record is not a literal cut short, so more literal bytes may
      follow it. */
  predicate LastFull(trace: seq<Emitted>, limit: nat)
  {
    |trace| > 0 && trace[|trace| - 1].Literal? ==> |trace[|trace| - 1].bytes| == limit
  }

  /** What `compress` has done when its cursor is at `pos`: the records parse
      the input up to where the literal buffer `pending` starts, every byte in
      the buffer was turned down, `out` holds the records' bytes, and literal
      records are cut at `limit` bytes. */
  ghost predicate Progress(data: seq<Byte>, fast: bool, limit: nat, trace: seq<Emitted>, pending: seq<Byte>, out: seq<Byte>, pos: nat)
  {
    && |pending| <= limit && |pending| <= pos <= |data|
    && pending == data[pos - |pending|..pos]
    && (forall q :: pos - |pending| <= q < pos ==> RejectedAt(data, fast, limit, q))
    && (forall e | e in trace :: Emittable(e))
    && out == Serialize(trace)
    && Parses(data, fast, limit, trace, pos - |pending|)
    && FlushedWhenFull(trace, limit)
  }

  /** `compress(data, fast)`, with the scan limit and literal buffer size
      `limit` (1025 as written, 1024 corrected). Besides the output it returns,
      as a ghost, the records it wrote. The output is those records followed by
      the sentinel; the records parse the whole input greedily; literal records
      are cut at `limit` bytes. Only a back-reference offset above 65 535, possible only in
      inputs longer than 65 536 bytes, makes it fail. */
  method Compress(data: seq<Byte>, fast: bool, limit: nat) returns (r: Result<seq<Byte>>, ghost trace: seq<Emitted>)
    requires 1 <= limit <= MaxScan
    ensures |data| <= 65536 ==> r.Ok?
    ensures r.Ok? ==> (forall e | e in trace :: Emittable(e)) && r.value == Serialize(trace) + [0xFF]
    ensures r.Ok? ==> Parses(data, fast, limit, trace, |data|) && FlushedWhenFull(trace, limit)
  {
    var pending: seq<Byte> := [];
    var out: seq<Byte> := [];
    var pos := 0;
    trace := [];
    Start(data, fast, limit);
    hide Progress, Offers, Maximal, ValidAt, Parses, Serialize, Encode, MakeHeader;
    while pos < |data|
      invariant pos <= |data| && |pending| < limit
      invariant Progress(data, fast, limit, trace, pending, out, pos) && LastFull(trace, limit)
      decreases |data| - pos
    {
      var best := SelectCandidate(data, pos, fast, limit);
      OfferShape(data, pos, fast, limit, best);
      if Accepted(best) {
        AcceptedFits(data, pos, fast, limit, best);
        if pending != [] {
          Flush(data, fast, limit, trace, pending, out, pos);
          trace := trace + [Literal(pending)];
          out := out + MakeHeader(0, |pending| - 1) + pending;
          pending := [];
        }
        if best.payload.Offset? && best.payload.at > 0xFFFF {
          return Err(Overflow), trace;
        }
        ChosenValid(data, fast, limit, pos, best);
        Choose(data, fast, limit, trace, out, pos, best);
        out := out + Encode(Chosen(best));
        trace := trace + [Chosen(best)];
        pos := pos + best.size;
      } else {
        Rejected(data, fast, limit, pos, best);
        Reject(data, fast, limit, trace, pending, out, pos);
        pending := pending + data[pos..pos + 1];
        pos := pos + 1;
        if |pending| == limit {
          Flush(data, fast, limit, trace, pending, out, pos);
          trace := trace + [Literal(pending)];
          out := out + MakeHeader(0, limit - 1) + pending;
          pending := [];
        }
      }
    }
    if pending != [] {
      Flush(data, fast, limit, trace, pending, out, pos);
      trace := trace + [Literal(pending)];
      out := out + MakeHeader(0, |pending| - 1) + pending;
    }
    Finish(data, fast, limit, trace, out);
    out := out + [0xFF];
    r := Ok(out);
  }

  /** Before the first step nothing is parsed and nothing written. */
  lemma Start(data: seq<Byte>, fast: bool, limit: nat)
    ensures Progress(data, fast, limit, [], [], [], 0)
  {
  }

  /** With the buffer empty at the end of the input, the records parse all of
      it. */
  lemma Finish(data: seq<Byte>, fast: bool, limit: nat, trace: seq<Emitted>, out: seq<Byte>)
    requires Progress(data, fast, limit, trace, [], out, |data|)
    ensures (forall e | e in trace :: Emittable(e)) && out == Serialize(trace)
    ensures Parses(data, fast, limit, trace, |data|) && FlushedWhenFull(trace, limit)
  {
  }

  /** A byte whose longest candidate was turned down joins the buffer. */
  lemma Reject(data: seq<Byte>, fast: bool, limit: nat, trace: seq<Emitted>, pending: seq<Byte>, out: seq<Byte>, pos: nat)
    requires Progress(data, fast, limit, trace, pending, out, pos) && |pending| < limit
    requires pos < |data| && RejectedAt(data, fast, limit, pos)
    ensures Progress(data, fast, limit, trace, pending + data[pos..pos + 1], out, pos + 1)
  {
    hide RejectedAt, Parses, Serialize, Emittable, FlushedWhenFull;
    assert pending + data[pos..pos + 1] == data[pos - |pending|..pos + 1];
  }

  /** Flushing the buffer appends one literal record and its bytes. */
  lemma Flush(data: seq<Byte>, fast: bool, limit: nat, trace: seq<Emitted>, pending: seq<Byte>, out: seq<Byte>, pos: nat)
    requires Progress(data, fast, limit, trace, pending, out, pos) && pending != [] && LastFull(trace, limit)
    requires limit <= MaxScan
    ensures Progress(data, fast, limit, trace + [Literal(pending)], [], out + MakeHeader(0, |pending| - 1) + pending, pos)
  {
    hide RejectedAt, Parses, Serialize, FlushedWhenFull;
    LiteralExtends(data, fast, limit, trace, pending, pos);
    SerializeExtend(trace, Literal(pending));
    FlushedExtend(trace, Literal(pending), limit);
  }

  /** Emitting an accepted longest candidate appends one chosen record and its
      bytes. */
  lemma Choose(data: seq<Byte>, fast: bool, limit: nat, trace: seq<Emitted>, out: seq<Byte>, pos: nat, best: Candidate)
    requires Progress(data, fast, limit, trace, [], out, pos)
    requires ValidAt(data, fast, limit, pos, Chosen(best)) && Emittable(Chosen(best))
    ensures Progress(data, fast, limit, trace + [Chosen(best)], [], out + Encode(Chosen(best)), pos + best.size)
  {
    ParsesExtend(data, fast, limit, trace, pos, Chosen(best));
    SerializeExtend(trace, Chosen(best));
    FlushedExtend(trace, Chosen(best), limit);
  }

  /** A longest candidate that fails the test sends the byte to the buffer. */
  lemma Rejected(data: seq<Byte>, fast: bool, limit: nat, pos: nat, best: Candidate)
    requires pos < |data|
    requires Offers(data, pos, fast, limit, best) && Maximal(data, pos, fast, limit, best) && !Accepted(best)
    ensures RejectedAt(data, fast, limit, pos)
  {
  }

  /** Appending a record that is valid where the parsed prefix ends extends
      the parse. */
  lemma ParsesExtend(data: seq<Byte>, fast: bool, limit: nat, trace: seq<Emitted>, end: nat, e: Emitted)
    requires Parses(data, fast, limit, trace, end) && ValidAt(data, fast, limit, end, e)
    ensures Parses(data, fast, limit, trace + [e], end + Width(e))
  {
    assert (trace + [e])[..|trace|] == trace;
  }

  lemma SerializeExtend(trace: seq<Emitted>, e: Emitted)
    requires forall x | x in trace :: Emittable(x)
    requires Emittable(e)
    ensures forall x | x in trace + [e] :: Emittable(x)
    ensures Serialize(trace + [e]) == Serialize(trace) + Encode(e)
  {
    assert (trace + [e])[..|trace|] == trace;
  }

  /** Appending a record keeps literal records cut at `limit` bytes when the
      previous last record is not a short literal. */
  lemma FlushedExtend(trace: seq<Emitted>, e: Emitted, limit: nat)
    requires FlushedWhenFull(trace, limit)
    requires |trace| > 0 && trace[|trace| - 1].Literal? && e.Literal? ==> |trace[|trace| - 1].bytes| == limit
    ensures FlushedWhenFull(trace + [e], limit)
  {
    var t := trace + [e];
    forall i | 0 <= i < |t| - 1 && t[i].Literal? && t[i + 1].Literal?
      ensures |t[i].bytes| == limit
    {
      if i < |trace| - 1 {
        assert t[i] == trace[i] && t[i + 1] == trace[i + 1];
      }
    }
  }

  /** Buffered bytes, each turned down, form a valid literal record. */
  lemma LiteralValid(data: seq<Byte>, fast: bool, limit: nat, pending: seq<Byte>, pos: nat)
    requires 1 <= |pending| <= limit && |pending| <= pos <= |data|
    requires pending == data[pos - |pending|..pos]
    requires forall q :: pos - |pending| <= q < pos ==> RejectedAt(data, fast, limit, q)
    ensures ValidAt(data, fast, limit, pos - |pending|, Literal(pending))
  {
  }

  /** An accepted longest candidate is a valid record, and one the encoder can
      write when its offset fits in two bytes. */
  lemma ChosenValid(data: seq<Byte>, fast: bool, limit: nat, pos: nat, best: Candidate)
    requires pos < |data|
    requires Offers(data, pos, fast, limit, best) && Maximal(data, pos, fast, limit, best) && Accepted(best)
    requires best.payload.Offset? ==> best.payload.at <= 0xFFFF
    requires limit <= MaxScan
    ensures ValidAt(data, fast, limit, pos, Chosen(best)) && Emittable(Chosen(best))
  {
    AcceptedFits(data, pos, fast, limit, best);
  }

  /** Flushing the literal buffer appends one literal record to the parse. */
  lemma LiteralExtends(data: seq<Byte>, fast: bool, limit: nat, trace: seq<Emitted>, pending: seq<Byte>, pos: nat)
    requires 1 <= |pending| <= limit && |pending| <= pos <= |data|
    requires pending == data[pos - |pending|..pos]
    requires forall q :: pos - |pending| <= q < pos ==> RejectedAt(data, fast, limit, q)
    requires Parses(data, fast, limit, trace, pos - |pending|)
    ensures Parses(data, fast, limit, trace + [Literal(pending)], pos)
  {
    LiteralValid(data, fast, limit, pending, pos);
    ParsesExtend(data, fast, limit, trace, pos - |pending|, Literal(pending));
  }
}
