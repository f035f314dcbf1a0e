/** The 1- or 2-byte command header of the HAL format: the parse the decoder
    performs at the top of its loop, and `make_header` of the encoder. */
module Header {
  import opened Types
  import opened Bits

  /** What a header announces: the end sentinel, or a command code with the
      number of units the command produces. */
  datatype Token = End | Command(code: nat, length: nat)

  /** A parsed header and the address just after it. */
  datatype Parsed = Parsed(token: Token, next: nat)

  /** Reads the header at `addr`: 0xFF ends the stream; a byte whose top three
      bits are all set opens a 2-byte header (command in bits 2..4, ten length
      bits across both bytes); any other byte is a 1-byte header (command in the
      top three bits, length in the low five). The length is stored minus one.
      The 2-byte length `((input & 3) << 8) | next` is written as a sum: the two
      operands have no bit in common. */
  function ParseHeader(rom: seq<Byte>, addr: nat): (r: Result<Parsed>)
    ensures r.Ok? ==> addr < r.value.next <= |rom|
    ensures r.Ok? && r.value.token.Command? ==>
              r.value.token.code <= 7 && 1 <= r.value.token.length <= 1024
  {
    if addr >= |rom| then Err(Truncated)
    else
      var input := rom[addr] as bv8;
      if rom[addr] == 0xFF then Ok(Parsed(End, addr + 1))
      else if input & 0xE0 == 0xE0 then
        if addr + 1 >= |rom| then Err(Truncated)
        else Ok(Parsed(Command(((input >> 2) & 7) as int,
                               ((input & 3) as int) * 256 + rom[addr + 1] + 1), addr + 2))
      else Ok(Parsed(Command((input >> 5) as int, (input & 31) as int + 1), addr + 1))
  }

  lemma EscapeBits(b: bv8)
    ensures (b & 0xE0 == 0xE0) == (b as int >= 0xE0)
  {
  }

  lemma ExtendedCommandBits(b: bv8)
    ensures ((b >> 2) & 7) as int == (b as int / 4) % 8
  {
  }

  lemma ExtendedLengthBits(b: bv8)
    ensures (b & 3) as int == b as int % 4
  {
  }

  lemma ShortBits(b: bv8)
    ensures (b >> 5) as int == b as int / 32
    ensures (b & 31) as int == b as int % 32
  {
  }

  /** The header parse in arithmetic terms: 0xFF is the sentinel; 0xE0..0xFE
      start a 2-byte header with command (b / 4) % 8 and length
      (b % 4) * 256 + b1 + 1; every smaller byte is a 1-byte header with command
      b / 32 and length b % 32 + 1. */
  lemma ParseHeaderMeaning(rom: seq<Byte>, addr: nat)
    requires addr < |rom|
    ensures rom[addr] == 0xFF ==> ParseHeader(rom, addr) == Ok(Parsed(End, addr + 1))
    ensures 0xE0 <= rom[addr] < 0xFF ==>
              ParseHeader(rom, addr) ==
                if addr + 1 < |rom|
                then Ok(Parsed(Command((rom[addr] as int / 4) % 8, (rom[addr] as int % 4) * 256 + rom[addr + 1] as int + 1), addr + 2))
                else Err(Truncated)
    ensures rom[addr] < 0xE0 ==>
              ParseHeader(rom, addr) == Ok(Parsed(Command(rom[addr] as int / 32, rom[addr] as int % 32 + 1), addr + 1))
  {
    var b := rom[addr] as bv8;
    ByteToBv8(rom[addr]);
    EscapeBits(b);
    ExtendedCommandBits(b);
    ExtendedLengthBits(b);
    ShortBits(b);
  }

  /** `make_header` as written. It receives the length already decremented by
      one, yet tests `length > 32` as if it had not been: an argument of 32 takes
      the 1-byte form and its sixth bit lands in the command field (for command
      6 it turns the byte into the escape 0xE0 of a 2-byte header of command 0),
      and an argument of 1024 takes the 2-byte form and its eleventh bit lands
      in the command field. The callers pass commands 0..6 and arguments up to 1024,
      where neither `to_bytes` call can overflow. */
  function MakeHeader(command: nat, length: nat): (h: seq<Byte>)
    requires command <= 6 && length <= 1024
    ensures |h| == (if length > 32 then 2 else 1)
    ensures h[0] != 0xFF
  {
    if length > 32 then
      var v := 0xE000 + command * 1024 + length;
      [v / 256, v % 256]
    else
      [command * 32 + length]
  }

  /** Where `make_header` is right: for an argument L of at most 31, or between
      33 and 1023, the header parses back to the same command and length L + 1,
      and its first byte is never the sentinel. */
  lemma MakeHeaderRoundTrip(command: nat, length: nat, rom: seq<Byte>, addr: nat)
    requires command <= 6 && (length <= 31 || 33 <= length <= 1023)
    requires addr + |MakeHeader(command, length)| <= |rom|
    requires rom[addr..addr + |MakeHeader(command, length)|] == MakeHeader(command, length)
    ensures MakeHeader(command, length)[0] != 0xFF
    ensures ParseHeader(rom, addr) == Ok(Parsed(Command(command, length + 1), addr + |MakeHeader(command, length)|))
  {
    var h := MakeHeader(command, length);
    assert rom[addr] == h[0];
    ParseHeaderMeaning(rom, addr);
    hide ParseHeader;
    if length > 32 {
      assert rom[addr + 1] == h[1];
      LongHeaderFields(command, length);
      assert (rom[addr] as int / 4) % 8 == command && (rom[addr] as int % 4) * 256 + rom[addr + 1] as int == length;
    } else {
      assert h[0] == command * 32 + length <= 223;
    }
  }

  /** The two bytes of the long form carry the escape 0b111, the command and
      the ten bits of the argument where the 2-byte parse looks for them. */
  lemma LongHeaderFields(command: nat, length: nat)
    requires command <= 6 && length <= 1023
    ensures var v := 0xE000 + command * 1024 + length;
            && 0xE0 <= v / 256 < 0xFF && (v / 256 / 4) % 8 == command
            && (v / 256 % 4) * 256 + v % 256 == length
  {
    var v := 0xE000 + command * 1024 + length;
    assert v / 256 == 224 + command * 4 + length / 256;
    assert v % 256 == length % 256;
  }

  /** An argument of 32 with command c <= 5 comes out as the 1-byte header of
      command c + 1 with length 1. */
  lemma MakeHeaderSpillsAt32(command: nat)
    requires command <= 5
    ensures MakeHeader(command, 32) == [(command + 1) * 32]
    ensures ParseHeader(MakeHeader(command, 32), 0) == Ok(Parsed(Command(command + 1, 1), 1))
  {
    ParseHeaderMeaning(MakeHeader(command, 32), 0);
  }

  /** An argument of 32 with command 6 comes out as 0xE0, which the parse
      takes for the first byte of a 2-byte header of command 0 (a literal)
      whose length is read from the next byte; at the end of the input it
      fails as truncated. */
  lemma MakeHeaderSpillsIntoEscape(rom: seq<Byte>, addr: nat)
    requires addr < |rom| && rom[addr] == MakeHeader(6, 32)[0]
    ensures MakeHeader(6, 32) == [0xE0]
    ensures ParseHeader(rom, addr) ==
              if addr + 1 < |rom| then Ok(Parsed(Command(0, rom[addr + 1] as int + 1), addr + 2))
              else Err(Truncated)
  {
    ParseHeaderMeaning(rom, addr);
  }

  /** An argument of 1024 with command c comes out as the 2-byte header of
      command c + 1 (7, an unknown command, when c is 6) with length 1. */
  lemma MakeHeaderSpillsAt1024(command: nat)
    requires command <= 6
    ensures ParseHeader(MakeHeader(command, 1024), 0) == Ok(Parsed(Command(command + 1, 1), 2))
  {
    var h := MakeHeader(command, 1024);
    assert h[0] == 228 + command * 4 && h[1] == 0;
    ParseHeaderMeaning(h, 0);
  }

  /** `make_header` with the threshold the decremented argument calls for:
      the 1-byte form holds arguments 0..31. */
  function MakeHeaderFixed(command: nat, length: nat): (h: seq<Byte>)
    requires command <= 6 && length <= 1023
    ensures |h| == (if length > 31 then 2 else 1)
    ensures h[0] != 0xFF
  {
    if length > 31 then
      var v := 0xE000 + command * 1024 + length;
      [v / 256, v % 256]
    else
      [command * 32 + length]
  }

  /** With the corrected threshold every argument 0..1023 parses back to the
      same command and length, and the first byte is never the sentinel. */
  lemma MakeHeaderFixedRoundTrip(command: nat, length: nat, rom: seq<Byte>, addr: nat)
    requires command <= 6 && length <= 1023
    requires addr + |MakeHeaderFixed(command, length)| <= |rom|
    requires rom[addr..addr + |MakeHeaderFixed(command, length)|] == MakeHeaderFixed(command, length)
    ensures MakeHeaderFixed(command, length)[0] != 0xFF
    ensures ParseHeader(rom, addr) == Ok(Parsed(Command(command, length + 1), addr + |MakeHeaderFixed(command, length)|))
  {
    var h := MakeHeaderFixed(command, length);
    assert rom[addr] == h[0];
    ParseHeaderMeaning(rom, addr);
    hide ParseHeader;
    if length > 31 {
      assert rom[addr + 1] == h[1];
      LongHeaderFields(command, length);
      assert (rom[addr] as int / 4) % 8 == command && (rom[addr] as int % 4) * 256 + rom[addr + 1] as int == length;
    } else {
      assert h[0] == command * 32 + length <= 223;
    }
  }
}
