/** The decoder `decompress`: a loop that reads a header, checks the 65 535-byte
    ceiling, runs one of seven commands and appends to the output until the
    sentinel 0xFF. `Step` and `DecodeFrom` give the meaning of the loop;
    `Decompress` is the loop itself, proved to compute `DecodeFrom`. */
module Decoder {
  import opened Types
  import opened Bits
  import opened Header

  /** The largest output the decoder produces. */
  const MaxOutput := 65535

  /** `bytes * n`: the pattern repeated n times. */
  function Repeat(pattern: seq<Byte>, n: nat): (r: seq<Byte>)
    ensures |r| == n * |pattern|
  {
    if n == 0 then [] else Repeat(pattern, n - 1) + pattern
  }

  /** Command 3 as written: n, n + 1, ..., n + length - 1, where `to_bytes(1, ...)`
      raises once a value passes 255 instead of wrapping. */
  function IncrementRun(n: Byte, length: nat): (r: Result<seq<Byte>>)
    ensures r.Ok? ==> |r.value| == length && (length > 0 ==> r.value[0] == n)
  {
    if n + length - 1 > 255 then Err(Overflow)
    else Ok(seq(length, k requires 0 <= k < length => n + k))
  }

  /** Command 5's payload: every byte of `t` bit-reversed. */
  function Mirror(t: seq<Byte>): (r: seq<Byte>)
    ensures |r| == |t|
  {
    seq(|t|, k requires 0 <= k < |t| => BitRotate(t[k]))
  }

  /** Command 6's payload, `data[pos:pos-length:-1]`: `length` bytes walking
      backwards from `pos`. */
  function Backwards(data: seq<Byte>, pos: nat, length: nat): (r: seq<Byte>)
    requires length <= pos < |data|
    ensures |r| == length
    ensures length > 0 ==> r[0] == data[pos] && r[length - 1] == data[pos - length + 1]
  {
    seq(length, k requires 0 <= k < length => data[pos - k])
  }

  /** A big-endian unsigned 16-bit read. */
  function ReadWord(rom: seq<Byte>, addr: nat): (r: Result<nat>)
    ensures r.Ok? <==> addr + 2 <= |rom|
    ensures r.Ok? ==> r.value <= 0xFFFF && r.value / 256 == rom[addr] && r.value % 256 == rom[addr + 1]
  {
    if addr + 2 > |rom| then Err(Truncated) else Ok(rom[addr] as int * 256 + rom[addr + 1])
  }

  /** How many output bytes a command of the given length produces. */
  function Growth(command: nat, length: nat): nat
  {
    if command == 2 then 2 * length else length
  }

  /** How many input bytes follow the header of a command. */
  function OperandSize(command: nat, length: nat): nat
  {
    if command == 0 then length else if command == 1 || command == 3 then 1 else 2
  }

  /** Where the decoder is after one header: finished, or at a new address
      with a longer output. */
  datatype State = Done | Running(addr: nat, data: seq<Byte>)

  /** One iteration of the decoder loop. A successful iteration moves forward
      in the input and extends the output without passing the ceiling. */
  function Step(rom: seq<Byte>, addr: nat, data: seq<Byte>): (r: Result<State>)
    ensures r.Ok? && r.value.Running? ==>
              addr < r.value.addr <= |rom| && |r.value.data| <= MaxOutput &&
              |data| < |r.value.data| && r.value.data[..|data|] == data
  {
    var h :- ParseHeader(rom, addr);
    match h.token
    case End => Ok(Done)
    case Command(command, length) => Execute(rom, h.next, data, command, length)
  }

  /** The body of the loop after the header: the ceiling check, then the
      command with its operands at `a`. */
  function Execute(rom: seq<Byte>, a: nat, data: seq<Byte>, command: nat, length: nat): (r: Result<State>)
    requires 1 <= length
    ensures r.Ok? ==> r.value.Running? && a <= r.value.addr <= |rom| &&
                      |r.value.data| <= MaxOutput && |data| < |r.value.data| && r.value.data[..|data|] == data
  {
    if (command == 2 && |data| + 2 * length > MaxOutput) || |data| + length > MaxOutput then
      Err(TooBig)
    else if command == 0 then
      if a + length > |rom| then Err(Truncated)
      else Ok(Running(a + length, data + rom[a..a + length]))
    else if command == 1 then
      if a + 1 > |rom| then Err(Truncated)
      else RepeatLength(rom[a..a + 1], length);
           Ok(Running(a + 1, data + Repeat(rom[a..a + 1], length)))
    else if command == 2 then
      if a + 2 > |rom| then Err(Truncated)
      else RepeatLength(rom[a..a + 2], length);
           Ok(Running(a + 2, data + Repeat(rom[a..a + 2], length)))
    else if command == 3 then
      if a + 1 > |rom| then Err(Truncated)
      else
        var t :- IncrementRun(rom[a], length);
        Ok(Running(a + 1, data + t))
    else if command == 4 then
      var pos :- ReadWord(rom, a);
      if pos + length > |data| then Err(BadReference)
      else Ok(Running(a + 2, data + data[pos..pos + length]))
    else if command == 5 then
      var pos :- ReadWord(rom, a);
      if pos + length > |data| then Err(BadReference)
      else Ok(Running(a + 2, data + Mirror(data[pos..pos + length])))
    else if command == 6 then
      var pos :- ReadWord(rom, a);
      if pos - length < 0 || pos >= |data| then Err(BadReference)
      else Ok(Running(a + 2, data + Backwards(data, pos, length)))
    else
      Err(UnknownCommand)
  }

  lemma {:induction false} RepeatByte(b: Byte, n: nat)
    ensures Repeat([b], n) == seq(n, k => b)
  {
    if n > 0 {
      RepeatByte(b, n - 1);
    }
  }

  lemma {:induction false} RepeatPair(pair: seq<Byte>, n: nat)
    requires |pair| == 2
    ensures |Repeat(pair, n)| == 2 * n
    ensures forall k :: 0 <= k < 2 * n ==> Repeat(pair, n)[k] == pair[k % 2]
  {
    if n > 0 {
      RepeatPair(pair, n - 1);
    }
  }

  /** The byte at offset k of what command 0, 1, 2 or 3 appends, with its
      operands at `a`. */
  function RunByte(rom: seq<Byte>, a: nat, command: nat, k: nat): int
    requires command <= 3
    requires a + OperandSize(command, k + 1) <= |rom|
  {
    if command == 0 then rom[a + k]
    else if command == 1 then rom[a]
    else if command == 2 then rom[a + k % 2]
    else rom[a] + k
  }

  /** Commands 0 to 3, once the ceiling check has passed. They succeed exactly
      when their operands lie inside the input and, for command 3, the run does
      not pass 255. Command 0 then appends the `length` input bytes after the
      header, command 1 one input byte `length` times, command 2 a 2-byte
      pattern `length` times and command 3 the bytes n, n + 1, ..., n + length - 1;
      the address moves past the operands. */
  lemma LiteralAndRunCommands(rom: seq<Byte>, a: nat, data: seq<Byte>, command: nat, length: nat)
    requires command <= 3 && 1 <= length && |data| + Growth(command, length) <= MaxOutput
    ensures Execute(rom, a, data, command, length).Ok? <==>
              a + OperandSize(command, length) <= |rom| && (command == 3 ==> rom[a] + length - 1 <= 255)
    ensures Execute(rom, a, data, command, length).Ok? ==>
              var s := Execute(rom, a, data, command, length).value;
              s.addr == a + OperandSize(command, length) &&
              |s.data| == |data| + Growth(command, length) && s.data[..|data|] == data &&
              forall k :: |data| <= k < |s.data| ==> s.data[k] == RunByte(rom, a, command, k - |data|)
  {
    var r := Execute(rom, a, data, command, length);
    if r.Ok? {
      var s := r.value;
      if command == 1 {
        RepeatByte(rom[a], length);
        assert rom[a..a + 1] == [rom[a]];
      } else if command == 2 {
        RepeatPair(rom[a..a + 2], length);
        forall k | |data| <= k < |s.data|
          ensures s.data[k] == RunByte(rom, a, command, k - |data|)
        {
          assert s.data[k] == Repeat(rom[a..a + 2], length)[k - |data|];
        }
      }
    }
  }

  /** The byte at offset k of what a back-reference command appends: the output
      byte at `pos + k` (command 4), the same byte bit-reversed (command 5), or
      the output byte at `pos - k` (command 6). */
  function ReferencedByte(data: seq<Byte>, command: nat, pos: nat, k: nat): Byte
    requires 4 <= command <= 6
    requires if command == 6 then k <= pos < |data| else pos + k < |data|
  {
    if command == 4 then data[pos + k]
    else if command == 5 then BitRotate(data[pos + k])
    else data[pos - k]
  }

  /** Whether a back-reference of `length` bytes at `pos` stays inside an output
      of `produced` bytes. */
  predicate InRange(command: nat, pos: nat, length: nat, produced: nat)
  {
    if command == 6 then length <= pos < produced else pos + length <= produced
  }

  /** Commands 4 to 6, once the ceiling check has passed. They succeed exactly
      when the 2-byte offset lies inside the input and the referenced bytes lie
      inside the output produced so far; they then append `length` bytes read
      from that output only. */
  lemma BackReferenceCommands(rom: seq<Byte>, a: nat, data: seq<Byte>, command: nat, length: nat)
    requires 4 <= command <= 6 && 1 <= length && |data| + length <= MaxOutput
    ensures Execute(rom, a, data, command, length).Ok? <==>
              a + 2 <= |rom| && InRange(command, rom[a] as int * 256 + rom[a + 1], length, |data|)
    ensures Execute(rom, a, data, command, length).Ok? ==>
              var s := Execute(rom, a, data, command, length).value;
              var pos := rom[a] as int * 256 + rom[a + 1];
              s.addr == a + 2 && |s.data| == |data| + length && s.data[..|data|] == data &&
              forall k :: |data| <= k < |s.data| ==> s.data[k] == ReferencedByte(data, command, pos, k - |data|)
  {
  }

  /** The ceiling is checked before anything is appended: a command fails as too
      big exactly when its output would pass 65 535 bytes (two bytes per unit for
      command 2), and command 7 fails whenever it fits. */
  lemma CeilingAndUnknownCommand(rom: seq<Byte>, a: nat, data: seq<Byte>, command: nat, length: nat)
    requires 1 <= length
    ensures Execute(rom, a, data, command, length) == Err(TooBig) <==> |data| + Growth(command, length) > MaxOutput
    ensures command == 7 && |data| + length <= MaxOutput ==> Execute(rom, a, data, command, length) == Err(UnknownCommand)
  {
  }

  lemma {:induction false} RepeatLength(pattern: seq<Byte>, n: nat)
    ensures |Repeat(pattern, n)| == |pattern| * n
  {
    if n > 0 {
      RepeatLength(pattern, n - 1);
    }
  }

  /** The whole decode from `addr` with output `data` so far: the output is
      only ever extended, and never passes 65 535 bytes. */
  function DecodeFrom(rom: seq<Byte>, addr: nat, data: seq<Byte>): (r: Result<seq<Byte>>)
    requires |data| <= MaxOutput
    ensures r.Ok? ==> |data| <= |r.value| <= MaxOutput && r.value[..|data|] == data
    decreases |rom| - addr
  {
    match Step(rom, addr, data)
    case Err(e) => Err(e)
    case Ok(Done) => Ok(data)
    case Ok(Running(next, more)) => DecodeFrom(rom, next, more)
  }

  /** `decompress(rom, addr)` with the start address given explicitly. */
  method Decompress(rom: seq<Byte>, start: nat) returns (r: Result<seq<Byte>>)
    ensures r == DecodeFrom(rom, start, [])
    ensures r.Ok? ==> |r.value| <= MaxOutput
  {
    var addr := start;
    var data: seq<Byte> := [];
    while true
      invariant |data| <= MaxOutput
      invariant DecodeFrom(rom, addr, data) == DecodeFrom(rom, start, [])
      decreases |rom| - addr
    {
      var header := ParseHeader(rom, addr);
      if header.Err? {
        return Err(header.error);
      }
      if header.value.token.End? {
        return Ok(data);
      }
      var state := RunCommand(rom, header.value.next, data, header.value.token.code, header.value.token.length);
      if state.Err? {
        return Err(state.error);
      }
      addr, data := state.value.addr, state.value.data;
    }
  }

  /** The command handlers of the loop body, appending to the output in place. */
  method RunCommand(rom: seq<Byte>, addr: nat, data: seq<Byte>, command: nat, length: nat)
    returns (r: Result<State>)
    requires 1 <= length
    ensures r == Execute(rom, addr, data, command, length)
  {
    if (command == 2 && |data| + 2 * length > MaxOutput) || |data| + length > MaxOutput {
      return Err(TooBig);
    }
    var next, out := addr, data;
    if command == 0 {
      if next + length > |rom| {
        return Err(Truncated);
      }
      out := out + rom[next..next + length];
      next := next + length;
    } else if command == 1 {
      if next + 1 > |rom| {
        return Err(Truncated);
      }
      out := out + Repeat(rom[next..next + 1], length);
      next := next + 1;
    } else if command == 2 {
      if next + 2 > |rom| {
        return Err(Truncated);
      }
      out := out + Repeat(rom[next..next + 2], length);
      next := next + 2;
    } else if command == 3 {
      if next + 1 > |rom| {
        return Err(Truncated);
      }
      var n := rom[next];
      next := next + 1;
      var t := AppendIncrementRun(out, n, length);
      if t.Err? {
        return Err(t.error);
      }
      out := t.value;
    } else if command == 4 || command == 5 || command == 6 {
      if next + 2 > |rom| {
        return Err(Truncated);
      }
      var pos := rom[next] as int * 256 + rom[next + 1];
      next := next + 2;
      if command == 6 {
        if pos - length < 0 || pos >= |out| {
          return Err(BadReference);
        }
        out := out + Backwards(out, pos, length);
      } else {
        if pos + length > |out| {
          return Err(BadReference);
        }
        var t := out[pos..pos + length];
        out := out + if command == 4 then t else Mirror(t);
      }
    } else {
      return Err(UnknownCommand);
    }
    r := Ok(Running(next, out));
  }

  /** Command 3's loop `for x in range(length)`, appending one byte at a time. */
  method AppendIncrementRun(data: seq<Byte>, n: Byte, length: nat) returns (r: Result<seq<Byte>>)
    ensures r.Ok? <==> IncrementRun(n, length).Ok?
    ensures r.Ok? ==> r.value == data + IncrementRun(n, length).value
    ensures r.Err? ==> r.error == Overflow
  {
    var out := data;
    for x := 0 to length
      invariant n + x <= 256
      invariant out == data + seq(x, k requires 0 <= k < x => n + k)
    {
      if n + x > 255 {
        return Err(Overflow);
      }
      out := out + [n + x];
    }
    return Ok(out);
  }
}
