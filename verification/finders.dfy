/** The six match finders of `compress`. Each looks at the input `data` from a
    cursor `pos` and proposes one encoding; the original runs them as
    interleaved coroutines, the model as plain methods, one loop each. An index
    past the end of the input, where the original raises IndexError, counts as
    a mismatch. */
module Finders {
  import opened Types
  import opened Bits

  /** Every finder loop runs `for i in range(1025)`, and the literal buffer is
      flushed at 1025 bytes: the scan limit as written. */
  const MaxScan := 1025

  /** The largest count the 10-bit length field of a header can carry: the
      scan limit the header format calls for. */
  const CorrectedScan := 1024

  /** What a candidate carries into the output: one byte (kinds 1 and 3), the
      2-byte pattern (kind 2) or the source offset (kinds 4 to 6). */
  datatype Payload = Value(byte: Byte) | Pattern(bytes: seq<Byte>) | Offset(at: nat)

  /** A proposed encoding: its command code, how many input bytes it covers and
      its payload. */
  datatype Candidate = Candidate(kind: nat, size: nat, payload: Payload)

  function Min(a: int, b: int): int
  {
    if a < b then a else b
  }

  // ----- find_rle8 -----

  /** `n` is what `find_rle8` counts at `pos` with scan limit `limit`: the
      input repeats data[pos] for n bytes, and either the scan limit is reached
      or the run stops there. */
  predicate IsByteRun(data: seq<Byte>, pos: nat, n: nat, limit: nat)
    requires pos < |data|
  {
    && 1 <= n <= limit && pos + n <= |data|
    && (forall k :: pos <= k < pos + n ==> data[k] == data[pos])
    && (n < limit && pos + n < |data| ==> data[pos + n] != data[pos])
  }

  /** `find_rle8`, scanning `limit` bytes (1025 as written). */
  method FindRle8(data: seq<Byte>, pos: nat, limit: nat) returns (c: Candidate)
    requires pos < |data| && 1 <= limit
    ensures c.kind == 1 && c.payload == Value(data[pos]) && IsByteRun(data, pos, c.size, limit)
  {
    var first := data[pos];
    var longest := 1;
    var i := 0;
    while i < limit
      invariant 0 <= i <= limit && pos + i <= |data|
      invariant longest == if i == 0 then 1 else i
      invariant forall k :: pos <= k < pos + i ==> data[k] == first
    {
      if pos + i >= |data| || data[pos + i] != first {
        break;
      }
      longest := i + 1;
      i := i + 1;
    }
    c := Candidate(1, longest, Value(first));
  }

  // ----- find_rle16 -----

  /** Python's `data[a:b]`, which stops quietly at the end of the input. */
  function Slice(data: seq<Byte>, a: nat, b: nat): (r: seq<Byte>)
    requires a <= b
    ensures |r| <= b - a && (b <= |data| ==> |r| == b - a)
    ensures a < |data| ==> |r| == Min(b, |data|) - a
    ensures forall i :: 0 <= i < |r| ==> a + i < |data| && r[i] == data[a + i]
  {
    data[Min(a, |data|)..Min(b, |data|)]
  }

  /** The i-th 2-byte word from `pos`: `data[pos + 2*i : pos + 2*i + 2]`. */
  function WordAt(data: seq<Byte>, pos: nat, i: nat): seq<Byte>
  {
    Slice(data, pos + 2 * i, pos + 2 * i + 2)
  }

  /** `n` is what `find_rle16` counts at `pos`: n words from `pos` equal the
      first, and either the scan limit is reached or the next one differs. */
  predicate IsWordRun(data: seq<Byte>, pos: nat, n: nat, limit: nat)
  {
    && 1 <= n <= limit
    && (forall i :: 0 <= i < n ==> WordAt(data, pos, i) == WordAt(data, pos, 0))
    && (n < limit ==> WordAt(data, pos, n) != WordAt(data, pos, 0))
  }

  /** `find_rle16`, scanning `limit` words (1025 as written). */
  method FindRle16(data: seq<Byte>, pos: nat, limit: nat) returns (c: Candidate)
    requires pos < |data| && 1 <= limit
    ensures c.kind == 2 && c.payload == Pattern(WordAt(data, pos, 0))
    ensures c.size % 2 == 0 && IsWordRun(data, pos, c.size / 2, limit)
  {
    var pattern := data[pos..Min(pos + 2, |data|)];
    assert pattern == WordAt(data, pos, 0);
    var longest := 1;
    var i := 0;
    while i < limit
      invariant 0 <= i <= limit
      invariant longest == if i == 0 then 1 else i
      invariant forall j :: 0 <= j < i ==> WordAt(data, pos, j) == pattern
    {
      if Slice(data, pos + i * 2, pos + i * 2 + 2) != pattern {
        break;
      }
      longest := i + 1;
      i := i + 1;
    }
    c := Candidate(2, longest * 2, Pattern(pattern));
  }

  // ----- find_rleinc -----

  /** `n` is what `find_rleinc` counts at `pos`: the input counts upwards from
      data[pos], modulo 256, for n bytes, and either the scan limit is reached
      or the count breaks there. */
  predicate IsIncRun(data: seq<Byte>, pos: nat, n: nat, limit: nat)
    requires pos < |data|
  {
    && 1 <= n <= limit && pos + n <= |data|
    && (forall k :: pos <= k < pos + n ==> data[k] == (data[pos] + (k - pos)) % 256)
    && (n < limit && pos + n < |data| ==> data[pos + n] != (data[pos] + n) % 256)
  }

  /** `find_rleinc`, scanning `limit` bytes (1025 as written). */
  method FindRleInc(data: seq<Byte>, pos: nat, limit: nat) returns (c: Candidate)
    requires pos < |data| && 1 <= limit
    ensures c.kind == 3 && c.payload == Value(data[pos]) && IsIncRun(data, pos, c.size, limit)
  {
    var first := data[pos];
    var longest := 1;
    var i := 0;
    while i < limit
      invariant 0 <= i <= limit && pos + i <= |data|
      invariant longest == if i == 0 then 1 else i
      invariant forall k :: pos <= k < pos + i ==> data[k] == (first + (k - pos)) % 256
    {
      if pos + i >= |data| || data[pos + i] != (first + i) % 256 {
        break;
      }
      longest := i + 1;
      i := i + 1;
    }
    c := Candidate(3, longest, Value(first));
  }

  /** What the run finders count is determined by the input. */
  lemma RunLengthsUnique(data: seq<Byte>, pos: nat, m: nat, n: nat, limit: nat)
    requires pos < |data|
    ensures IsByteRun(data, pos, m, limit) && IsByteRun(data, pos, n, limit) ==> m == n
    ensures IsIncRun(data, pos, m, limit) && IsIncRun(data, pos, n, limit) ==> m == n
    ensures IsWordRun(data, pos, m, limit) && IsWordRun(data, pos, n, limit) ==> m == n
  {
  }

  // ----- find_backref, find_rot_backref, find_backbackref -----

  /** How far `find_backref_at(off)` scans: up to the cursor for kinds 4 and 5,
      down to the start of the input for kind 6, and never past `limit` bytes
      (1025 as written). */
  function MaxLength(kind: nat, pos: nat, off: nat, limit: nat): nat
  {
    if kind == 6 then Min(off, limit) else if off < pos then Min(pos - off, limit) else 0
  }

  /** Whether byte i of the match holds: data[pos + i] against data[off + i]
      (kind 4), its bit reversal (kind 5) or data[off - i] (kind 6). */
  predicate Matches(data: seq<Byte>, pos: nat, kind: nat, off: nat, i: nat)
  {
    && pos + i < |data|
    && if kind == 4 then off + i < |data| && data[off + i] == data[pos + i]
       else if kind == 5 then off + i < |data| && BitRotate(data[off + i]) == data[pos + i]
       else i <= off < |data| && data[off - i] == data[pos + i]
  }

  /** `n` is what `find_backref_at(off)` returns: the first mismatch, found
      before the scan limit of that offset. */
  predicate IsMatchLength(data: seq<Byte>, pos: nat, kind: nat, off: nat, n: nat, limit: nat)
  {
    && 4 <= kind <= 6 && off < pos < |data|
    && n < MaxLength(kind, pos, off, limit)
    && (forall i :: 0 <= i < n ==> Matches(data, pos, kind, off, i))
    && !Matches(data, pos, kind, off, n)
  }

  /** The case where `find_backref_at(off)` returns None: no mismatch before the
      scan limit. */
  predicate FullMatch(data: seq<Byte>, pos: nat, kind: nat, off: nat, limit: nat)
  {
    forall i :: 0 <= i < MaxLength(kind, pos, off, limit) ==> Matches(data, pos, kind, off, i)
  }

  /** A back-reference candidate: an offset before the cursor whose match is
      at least one byte long and ends in a mismatch. */
  predicate IsBackRef(data: seq<Byte>, pos: nat, c: Candidate, limit: nat)
  {
    && 4 <= c.kind <= 6 && c.payload.Offset? && c.payload.at < pos
    && 1 <= c.size && IsMatchLength(data, pos, c.kind, c.payload.at, c.size, limit)
  }

  /** A match length is determined by the offset. */
  lemma MatchLengthUnique(data: seq<Byte>, pos: nat, kind: nat, off: nat, m: nat, n: nat, limit: nat)
    requires IsMatchLength(data, pos, kind, off, m, limit) && IsMatchLength(data, pos, kind, off, n, limit)
    ensures m == n
  {
  }

  /** `find_backref_at(off)`, the inner scan shared by the three finders. */
  method FindBackrefAt(data: seq<Byte>, pos: nat, kind: nat, off: nat, limit: nat) returns (r: Option<nat>)
    requires 4 <= kind <= 6 && off < pos < |data|
    ensures r.Some? ==> IsMatchLength(data, pos, kind, off, r.value, limit)
    ensures r.None? ==> FullMatch(data, pos, kind, off, limit)
  {
    var maxlen := if kind == 6 then Min(off, limit) else Min(pos - off, limit);
    for i := 0 to maxlen
      invariant forall j :: 0 <= j < i ==> Matches(data, pos, kind, off, j)
    {
      var same :=
        if pos + i >= |data| then false
        else if kind == 4 then data[off + i] == data[pos + i]
        else if kind == 5 then BitRotate(data[off + i]) == data[pos + i]
        else data[off - i] == data[pos + i];
      if !same {
        return Some(i);
      }
    }
    return None;
  }

  /** `find_backref` (kind 4), `find_rot_backref` (kind 5) and
      `find_backbackref` (kind 6): try every offset before the cursor whose
      first byte fits, drop the offsets that match all the way, and keep one of
      the longest matches; no candidate when nothing survives. */
  method FindBackrefs(data: seq<Byte>, pos: nat, kind: nat, limit: nat) returns (best: Option<Candidate>)
    requires 4 <= kind <= 6 && pos < |data|
    ensures best.Some? ==> best.value.kind == kind && IsBackRef(data, pos, best.value, limit)
    ensures best.Some? ==>
              forall off: nat, n: nat :: 1 <= n && IsMatchLength(data, pos, kind, off, n, limit) ==> n <= best.value.size
    ensures best.None? ==> forall off: nat, n: nat :: 1 <= n ==> !IsMatchLength(data, pos, kind, off, n, limit)
  {
    best := None;
    for off := 0 to pos
      invariant best.Some? ==> best.value.kind == kind && IsBackRef(data, pos, best.value, limit)
      invariant best.Some? ==>
                  forall o: nat, n: nat :: o < off && 1 <= n && IsMatchLength(data, pos, kind, o, n, limit) ==> n <= best.value.size
      invariant best.None? ==> forall o: nat, n: nat :: o < off && 1 <= n ==> !IsMatchLength(data, pos, kind, o, n, limit)
    {
      var seed := if kind == 5 then BitRotate(data[off]) else data[off];
      if seed == data[pos] {
        var m := FindBackrefAt(data, pos, kind, off, limit);
        if m.Some? {
          assert Matches(data, pos, kind, off, 0);
        }
        if m.Some? && (best.None? || m.value > best.value.size) {
          best := Some(Candidate(kind, m.value, Offset(off)));
        }
        forall n | 1 <= n && IsMatchLength(data, pos, kind, off, n, limit)
          ensures m.Some? && m.value == n
        {
          if m.Some? {
            MatchLengthUnique(data, pos, kind, off, m.value, n, limit);
          }
        }
      } else {
        assert !Matches(data, pos, kind, off, 0);
      }
    }
  }
}
