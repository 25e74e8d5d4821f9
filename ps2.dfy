/**
 * The PS/2 transport of ps2.cpp: the interrupt-driven byte receiver, the
 * host-to-device byte transmitter and the command primitive built on it.
 *
 * A PS/2 frame is 11 bits: a start bit (0), the 8 payload bits least
 * significant first, an odd parity bit and a stop bit (1). Pin reads are
 * inputs of the operations here; the bits the host drives on the data line
 * are collected in `wire`.
 */
module Ps2 {
  import opened Ps2Commands

  /** Bit i of a byte. */
  function Bit(b: bv8, i: nat): bv1
    requires i < 8
  {
    ((b >> i) & 1) as bv1
  }

  /** Two bytes that agree on every bit are equal. */
  lemma BitsDetermineByte(x: bv8, y: bv8)
    requires forall i :: 0 <= i < 8 ==> Bit(x, i) == Bit(y, i)
    ensures x == y
  {
    assert Bit(x, 0) == Bit(y, 0) && Bit(x, 1) == Bit(y, 1);
    assert Bit(x, 2) == Bit(y, 2) && Bit(x, 3) == Bit(y, 3);
    assert Bit(x, 4) == Bit(y, 4) && Bit(x, 5) == Bit(y, 5);
    assert Bit(x, 6) == Bit(y, 6) && Bit(x, 7) == Bit(y, 7);
  }

  /**
   * The low n bits of d in the order write_byte puts them on the wire: take
   * the least significant bit, shift right, repeat.
   */
  function LsbFirst(d: bv8, n: nat): (bits: seq<bv1>)
    requires n <= 8
    ensures |bits| == n
  {
    if n == 0 then [] else [(d & 1) as bv1] + LsbFirst(d >> 1, n - 1)
  }

  /** Element i of LsbFirst(d, n) is bit i of d. */
  lemma {:induction false} LsbFirstBits(d: bv8, n: nat)
    requires n <= 8
    ensures forall i :: 0 <= i < n ==> LsbFirst(d, n)[i] == Bit(d, i)
  {
    if n > 0 {
      LsbFirstBits(d >> 1, n - 1);
      forall i | 1 <= i < n
        ensures LsbFirst(d, n)[i] == Bit(d, i)
      {
        assert LsbFirst(d, n)[i] == LsbFirst(d >> 1, n - 1)[i - 1];
        ShiftedBit(d, i);
      }
    }
  }

  /** Shifting right by one moves bit i down to i - 1. */
  lemma ShiftedBit(d: bv8, i: nat)
    requires 1 <= i < 8
    ensures Bit(d >> 1, i - 1) == Bit(d, i)
  {
  }

  /**
   * The byte whose bit k is element k of `bits` and whose remaining bits
   * are 0: the value bit_received assembles from payload bits.
   */
  function PackLsb(bits: seq<bv1>): (b: bv8)
    requires |bits| <= 8
  {
    if bits == [] then 0 else (bits[0] as bv8) | (PackLsb(bits[1..]) << 1)
  }

  /** Bit i of PackLsb(bits) is element i of bits; the bits beyond are 0. */
  lemma {:induction false} PackLsbBits(bits: seq<bv1>)
    requires |bits| <= 8
    ensures forall i :: 0 <= i < 8 ==> Bit(PackLsb(bits), i) == if i < |bits| then bits[i] else 0
  {
    if bits != [] {
      PackLsbBits(bits[1..]);
      forall i | 0 <= i < 8
        ensures Bit(PackLsb(bits), i) == if i < |bits| then bits[i] else 0
      {
        var rest := PackLsb(bits[1..]);
        if i > 0 {
          assert Bit(rest, i - 1) == if i - 1 < |bits| - 1 then bits[1..][i - 1] else 0;
        }
        ConsBit(bits[0], rest, i);
      }
    }
  }

  /** Bit i of b | (x << 1) is b for i = 0 and bit i - 1 of x above. */
  lemma ConsBit(b: bv1, x: bv8, i: nat)
    requires i < 8
    ensures Bit((b as bv8) | (x << 1), i) == if i == 0 then b else Bit(x, i - 1)
  {
  }

  /**
   * bit_received's step: ORing the next payload bit in at position |bits|
   * extends the assembled value by that bit.
   */
  lemma {:induction false} PackLsbSnoc(bits: seq<bv1>, b: bv1)
    requires |bits| < 8
    ensures PackLsb(bits + [b]) == PackLsb(bits) | ((b as bv8) << |bits|)
  {
    if bits == [] {
      assert [] + [b] == [b];
    } else {
      assert (bits + [b])[1..] == bits[1..] + [b];
      PackLsbSnoc(bits[1..], b);
      ShiftInOne(bits[0], PackLsb(bits[1..]), b, |bits|);
    }
  }

  /** Putting b at position k - 1 and shifting once puts it at position k. */
  lemma ShiftInOne(c: bv1, x: bv8, b: bv1, k: nat)
    requires 1 <= k < 8
    ensures (c as bv8) | ((x | ((b as bv8) << (k - 1))) << 1) == ((c as bv8) | (x << 1)) | ((b as bv8) << k)
  {
  }

  /** Receiving what write_byte sends gives back the byte. */
  lemma PackLsbFirst(d: bv8)
    ensures PackLsb(LsbFirst(d, 8)) == d
  {
    LsbFirstBits(d, 8);
    PackLsbBits(LsbFirst(d, 8));
    BitsDetermineByte(PackLsb(LsbFirst(d, 8)), d);
  }

  /** Sending an assembled byte gives back the payload bits. */
  lemma LsbFirstPack(bits: seq<bv1>)
    requires |bits| == 8
    ensures LsbFirst(PackLsb(bits), 8) == bits
  {
    LsbFirstBits(PackLsb(bits), 8);
    PackLsbBits(bits);
  }

  /** XOR of a sequence of bits. */
  function Xor(bits: seq<bv1>): bv1
  {
    if bits == [] then 0 else Xor(bits[..|bits| - 1]) ^ bits[|bits| - 1]
  }

  /** XOR over a concatenation is the XOR of the two parts. */
  lemma {:induction false} XorAppend(a: seq<bv1>, b: seq<bv1>)
    ensures Xor(a + b) == Xor(a) ^ Xor(b)
    decreases |b|
  {
    if b == [] {
      assert a + b == a;
    } else {
      assert (a + b)[..|a + b| - 1] == a + b[..|b| - 1];
      XorAppend(a, b[..|b| - 1]);
    }
  }

  /** Extending a prefix by one element XORs that element in. */
  lemma XorPrefix(s: seq<bv1>, i: nat)
    requires i < |s|
    ensures Xor(s[..i + 1]) == Xor(s[..i]) ^ s[i]
    ensures s[..i + 1] == s[..i] + [s[i]]
  {
    assert s[..i + 1] == s[..i] + [s[i]];
    XorAppend(s[..i], [s[i]]);
  }

  /** The odd-parity bit of a payload: 1 XOR all payload bits. */
  function OddParity(payload: seq<bv1>): (p: bv1)
    ensures Xor(payload + [p]) == 1
  {
    assert (payload + [1 ^ Xor(payload)])[..|payload|] == payload;
    1 ^ Xor(payload)
  }

  /** The 11-bit frame that carries byte d: start, payload, parity, stop. */
  function Frame(d: bv8): (f: seq<bv1>)
    ensures |f| == 11
  {
    [0] + LsbFirst(d, 8) + [OddParity(LsbFirst(d, 8)), 1]
  }

  /** The frames of a sequence of bytes, one after the other. */
  function Frames(bytes: seq<bv8>): (f: seq<bv1>)
    ensures |f| == 11 * |bytes|
  {
    if bytes == [] then [] else Frames(bytes[..|bytes| - 1]) + Frame(bytes[|bytes| - 1])
  }

  lemma FramesSnoc(bytes: seq<bv8>, b: bv8)
    ensures Frames(bytes + [b]) == Frames(bytes) + Frame(b)
  {
    assert (bytes + [b])[..|bytes|] == bytes;
  }

  /**
   * A frame passes every check bit_received makes: a low start bit, odd
   * parity over payload and parity bit, a high stop bit; and its payload
   * assembles back into the byte.
   */
  lemma FrameChecks(d: bv8)
    ensures Frame(d)[0] == 0 && Frame(d)[10] == 1
    ensures Xor(Frame(d)[1..10]) == 1
    ensures PackLsb(Frame(d)[1..9]) == d
  {
    var payload := LsbFirst(d, 8);
    assert Frame(d)[1..9] == payload;
    assert Frame(d)[1..10] == payload + [OddParity(payload)];
    PackLsbFirst(d);
  }

  /**
   * The messages the transport logs: the three frame checks of bit_received
   * and read_byte, the line-control bit and the missing acknowledgement of
   * write_byte.
   */
  datatype LineError = StartBitError | ParityBitError | StopBitError | LineControlError | MissingAck

  /**
   * The receive interrupt finds nothing to log at any position of a frame
   * built for a byte: what write_byte sends passes bit_received's checks.
   */
  lemma FrameReceivedClean(d: bv8)
    ensures forall k :: 0 <= k < 11 ==> BitErrors(Frame(d)[..k], Frame(d)[k]) == []
  {
    FrameChecks(d);
    assert Frame(d)[..9][1..] + [Frame(d)[9]] == Frame(d)[1..10];
  }

  /** What read_byte logs for the 11 bits it reads. */
  function ReadErrors(line: seq<bv1>): (errs: seq<LineError>)
    requires |line| == 11
    ensures StartBitError in errs <==> line[0] != 0
    ensures ParityBitError in errs <==> Xor(line[1..10]) != 1
    ensures StopBitError in errs <==> line[10] != 1
    ensures LineControlError !in errs && MissingAck !in errs
  {
    (if line[0] != 0 then [StartBitError] else []) +
    (if Xor(line[1..10]) != 1 then [ParityBitError] else []) +
    (if line[10] != 1 then [StopBitError] else [])
  }

  /** A frame built for a byte reads back as that byte without any logged error. */
  lemma FrameReadsBack(d: bv8)
    ensures ReadErrors(Frame(d)) == [] && PackLsb(Frame(d)[1..9]) == d
  {
    FrameChecks(d);
  }

  /** The frames of consecutive bytes, one after the other. */
  lemma {:induction false} FramesAppend(a: seq<bv8>, b: seq<bv8>)
    ensures Frames(a + b) == Frames(a) + Frames(b)
    decreases |b|
  {
    if b == [] {
      assert a + b == a;
    } else {
      var init, last := b[..|b| - 1], b[|b| - 1];
      assert (a + b)[..|a + b| - 1] == a + init && (a + b)[|a + b| - 1] == last;
      assert Frames(a + b) == Frames(a + init) + Frame(last);
      FramesAppend(a, init);
      assert Frames(b) == Frames(init) + Frame(last);
    }
  }

  /** The payload bits among the first bits of a frame. */
  function Payload(frame: seq<bv1>): (p: seq<bv1>)
    requires |frame| <= 10
    ensures |p| <= 8
  {
    if |frame| <= 1 then [] else if |frame| <= 9 then frame[1..] else frame[1..9]
  }

  /** The bits the parity accumulator has seen: everything after the start bit. */
  function ParityInput(frame: seq<bv1>): seq<bv1>
  {
    if frame == [] then [] else frame[1..]
  }

  /** buffer with bit ORed in at bit position k. */
  function OrBitAt(buffer: bv8, bit: bv1, k: nat): bv8
    requires k < 8
  {
    buffer | ((bit as bv8) << k)
  }

  /** A payload bit arriving at position |frame| is ORed in at bit |frame| - 1. */
  lemma PayloadBitStep(frame: seq<bv1>, bit: bv1, buffer: bv8, k: nat)
    requires 1 <= |frame| <= 8
    requires buffer == PackLsb(Payload(frame))
    requires k == |frame| - 1
    ensures OrBitAt(buffer, bit, k) == PackLsb(Payload(frame + [bit]))
  {
    assert Payload(frame + [bit]) == Payload(frame) + [bit];
    PackLsbSnoc(Payload(frame), bit);
  }

  /** Every bit after the start bit is XORed into the parity accumulator. */
  lemma ParityStep(frame: seq<bv1>, bit: bv1)
    requires 1 <= |frame|
    ensures Xor(ParityInput(frame + [bit])) == Xor(ParityInput(frame)) ^ bit
  {
    assert ParityInput(frame + [bit]) == ParityInput(frame) + [bit];
    assert (ParityInput(frame) + [bit])[..|frame| - 1] == ParityInput(frame);
  }

  /** What bit_received logs when `bit` arrives after the bits of `frame`. */
  function BitErrors(frame: seq<bv1>, bit: bv1): (errs: seq<LineError>)
    requires |frame| <= 10
    ensures |errs| <= 1
    ensures errs == [StartBitError] <==> |frame| == 0 && bit != 0
    ensures errs == [ParityBitError] <==> |frame| == 9 && Xor(frame[1..] + [bit]) != 1
    ensures errs == [StopBitError] <==> |frame| == 10 && bit != 1
    ensures LineControlError !in errs && MissingAck !in errs
  {
    if |frame| == 0 && bit != 0 then [StartBitError]
    else if |frame| == 9 && Xor(frame[1..] + [bit]) != 1 then [ParityBitError]
    else if |frame| == 10 && bit != 1 then [StopBitError]
    else []
  }

  /**
   * The transport's state: the receive globals of ps2.cpp, the bytes handed
   * to the byte_received callback, the error log, the bits the host has
   * driven on the data line and the commands issued so far.
   */
  class Port {
    var receiveIndex: int
    var receiveBuffer: bv8
    var parity: bv1
    /** The bits of the frame being received, start bit first. */
    ghost var frame: seq<bv1>
    /** The bytes passed to the byte_received callback, in order. */
    var delivered: seq<bv8>
    var log: seq<LineError>
    var wire: seq<bv1>
    ghost var commands: seq<Command>

    ghost predicate Valid()
      reads this
    {
      0 <= receiveIndex <= 10 && |frame| == receiveIndex &&
      receiveBuffer == PackLsb(Payload(frame)) &&
      parity == Xor(ParityInput(frame))
    }

    /** No frame is in progress. */
    ghost predicate Idle()
      reads this
    {
      receiveIndex == 0 && receiveBuffer == 0 && parity == 0 && frame == []
    }

    constructor ()
      ensures Valid() && Idle()
      ensures delivered == [] && log == [] && wire == [] && commands == []
    {
      receiveIndex, receiveBuffer, parity := 0, 0, 0;
      frame := [];
      delivered, log, wire := [], [], [];
      commands := [];
    }

    /** Abandons the frame in progress. */
    method DisableInterrupt()
      modifies this
      ensures Valid() && Idle()
      ensures delivered == old(delivered) && log == old(log)
      ensures wire == old(wire) && commands == old(commands)
    {
      receiveIndex := 0;
      receiveBuffer := 0;
      parity := 0;
      frame := [];
    }

    /**
     * The falling-clock interrupt: `clock` is the level the clock pin reads,
     * `bit` the level of the data pin. Bit 0 of a frame is the start bit,
     * bits 1-8 the payload, bit 9 the parity bit and bit 10 the stop bit;
     * the stop bit hands the assembled byte to the callback whatever the
     * checks found.
     */
    method BitReceived(clock: bv1, bit: bv1)
      requires Valid()
      modifies this
      ensures Valid()
      ensures wire == old(wire) && commands == old(commands)
      ensures clock != 0 ==> unchanged(this)
      ensures clock == 0 ==> log == old(log) + BitErrors(old(frame), bit)
      ensures clock == 0 && old(receiveIndex) < 10 ==>
                frame == old(frame) + [bit] && delivered == old(delivered)
      ensures clock == 0 && old(receiveIndex) == 10 ==>
                Idle() && delivered == old(delivered) + [PackLsb(old(frame)[1..9])]
    {
      if clock != 0 {
        return;
      }
      if receiveIndex == 0 {
        StartBit(bit);
      } else if receiveIndex <= 8 {
        PayloadBit(bit);
      } else if receiveIndex == 9 {
        ParityBit(bit);
      } else {
        StopBit(bit);
      }
    }

    /** Frame position 0: a high start bit is logged. */
    method StartBit(bit: bv1)
      requires Valid() && receiveIndex == 0
      modifies this
      ensures Valid() && frame == old(frame) + [bit]
      ensures log == old(log) + BitErrors(old(frame), bit)
      ensures delivered == old(delivered) && wire == old(wire) && commands == old(commands)
    {
      assert Payload([bit]) == [] && ParityInput([bit]) == [];
      if bit != 0 {
        log := log + [StartBitError];
      }
      receiveIndex := receiveIndex + 1;
      frame := frame + [bit];
    }

    /** Frame positions 1-8: the bit is ORed in at position receiveIndex - 1 and into the parity. */
    method PayloadBit(bit: bv1)
      requires Valid() && 1 <= receiveIndex <= 8
      modifies this
      ensures Valid() && frame == old(frame) + [bit]
      ensures log == old(log) + BitErrors(old(frame), bit)
      ensures delivered == old(delivered) && wire == old(wire) && commands == old(commands)
    {
      assert BitErrors(frame, bit) == [];
      ParityStep(frame, bit);
      PayloadBitStep(frame, bit, receiveBuffer, receiveIndex - 1);
      receiveBuffer := OrBitAt(receiveBuffer, bit, receiveIndex - 1);
      parity := parity ^ bit;
      receiveIndex := receiveIndex + 1;
      frame := frame + [bit];
    }

    /** Frame position 9: the parity bit completes the XOR, which should be 1. */
    method ParityBit(bit: bv1)
      requires Valid() && receiveIndex == 9
      modifies this
      ensures Valid() && frame == old(frame) + [bit]
      ensures log == old(log) + BitErrors(old(frame), bit)
      ensures delivered == old(delivered) && wire == old(wire) && commands == old(commands)
    {
      assert Payload(frame + [bit]) == Payload(frame);
      assert ParityInput(frame + [bit]) == frame[1..] + [bit];
      ParityStep(frame, bit);
      parity := parity ^ bit;
      if parity != 1 {
        log := log + [ParityBitError];
      }
      receiveIndex := receiveIndex + 1;
      frame := frame + [bit];
    }

    /** Frame position 10: the stop bit; the byte is delivered and the state cleared. */
    method StopBit(bit: bv1)
      requires Valid() && receiveIndex == 10
      modifies this
      ensures Valid() && Idle()
      ensures log == old(log) + BitErrors(old(frame), bit)
      ensures delivered == old(delivered) + [PackLsb(old(frame)[1..9])]
      ensures wire == old(wire) && commands == old(commands)
    {
      if bit != 1 {
        log := log + [StopBitError];
      }
      delivered := delivered + [receiveBuffer];
      receiveBuffer := 0;
      receiveIndex := 0;
      parity := 0;
      frame := [];
    }

    /**
     * The transmitting part of write_byte: the start bit (DATA pulled low),
     * the payload least significant bit first, the odd-parity bit and the
     * stop bit.
     */
    method Transmit(data: bv8)
      modifies this`wire
      ensures wire == old(wire) + Frame(data)
    {
      wire := wire + [0];
      var payload := LsbFirst(data, 8);
      var d := data;
      var p: bv1 := 1;
      var i := 0;
      while i < 8
        invariant 0 <= i <= 8
        invariant LsbFirst(d, 8 - i) == payload[i..]
        invariant p == 1 ^ Xor(payload[..i])
        invariant wire == old(wire) + [0] + payload[..i]
      {
        var b := (d & 0x01) as bv1;
        assert payload[i..] == [b] + LsbFirst(d >> 1, 8 - (i + 1));
        assert payload[i + 1..] == payload[i..][1..];
        XorPrefix(payload, i);
        p := p ^ b;
        d := d >> 1;
        wire := wire + [b];
        i := i + 1;
      }
      assert payload[..8] == payload;
      assert p == OddParity(payload);
      wire := wire + [p];
      wire := wire + [1];
      assert wire == old(wire) + ([0] + payload + [p, 1]);
    }

    /**
     * read_byte: reads the 11 bits `line` the device clocks out, logs the
     * failed checks and assembles the payload least significant bit first.
     */
    method ReadByte(line: seq<bv1>) returns (data: bv8)
      requires |line| == 11
      modifies this`log
      ensures data == PackLsb(line[1..9])
      ensures log == old(log) + ReadErrors(line)
    {
      if line[0] != 0 {
        log := log + [StartBitError];
      }
      data := 0;
      var p: bv1 := 0;
      var i := 0;
      while i < 8
        invariant 0 <= i <= 8
        invariant data == PackLsb(line[1..1 + i])
        invariant p == Xor(line[1..1 + i])
        invariant log == old(log) + (if line[0] != 0 then [StartBitError] else [])
      {
        ReadStep(line, i, data);
        data := data | ((line[1 + i] as bv8) << i);
        p := p ^ line[1 + i];
        i := i + 1;
      }
      ReadStep(line, 8, data);
      p := p ^ line[9];
      if p != 1 {
        log := log + [ParityBitError];
      }
      if line[10] != 1 {
        log := log + [StopBitError];
      }
    }

    /**
     * write_byte: transmits the frame, reads the line-control bit and the
     * acknowledgement frame `ackLine`, logging what fails. The result is
     * the corrected one (see WriteResultAsWritten).
     */
    method WriteByte(data: bv8, lineControl: bv1, ackLine: seq<bv1>) returns (acked: bool)
      requires |ackLine| == 11
      modifies this`wire, this`log
      ensures wire == old(wire) + Frame(data)
      ensures log == old(log) + (if lineControl != 0 then [LineControlError] else []) +
                     ReadErrors(ackLine) +
                     (if PackLsb(ackLine[1..9]) != 0xFA then [MissingAck] else [])
      ensures Returned(acked) == WriteResult(PackLsb(ackLine[1..9]))
    {
      Transmit(data);
      if lineControl != 0 {
        log := log + [LineControlError];
      }
      var ack := ReadByte(ackLine);
      if ack != 0xFA {
        log := log + [MissingAck];
        return false;
      }
      acked := true;
    }

    /**
     * The argument loop of ps2_command: writes the first `send` argument
     * bytes in order.
     */
    method SendArguments(args: seq<bv8>, send: nat)
      requires send <= |args|
      modifies this`wire
      ensures wire == old(wire) + Frames(args[..send])
    {
      var i := 0;
      while i < send
        invariant 0 <= i <= send
        invariant wire == old(wire) + Frames(args[..i])
      {
        Transmit(args[i]);
        FramesSnoc(args[..i], args[i]);
        assert args[..i] + [args[i]] == args[..i + 1];
        i := i + 1;
      }
    }

    /**
     * ps2_command: abandons any frame being received, sends the opcode and
     * the argument bytes the word asks for, then reads as many response
     * bytes as it asks for. `responses` are the bytes read_byte returns;
     * they are stored only when `result` is not null.
     */
    method Ps2Command(command: bv16, args: seq<bv8>, result: array?<bv8>, responses: seq<bv8>)
      returns (ok: bool)
      requires |args| >= Decode(command).send as int
      requires |responses| >= Decode(command).receive as int
      requires result != null ==> result.Length >= Decode(command).receive as int
      modifies this, result
      ensures Valid() && Idle()
      ensures delivered == old(delivered)
      ensures commands == old(commands) + [Command(command, args[..Decode(command).send])]
      ensures wire == old(wire) + TraceFrames(commands[|old(commands)|..])
      ensures result != null ==>
                result[..Decode(command).receive] == responses[..Decode(command).receive] &&
                result[Decode(command).receive..] == old(result[Decode(command).receive..])
      ensures ok
    {
      DisableInterrupt();
      var w := Decode(command);
      SendCommand(command, args);
      assert commands[|old(commands)|..] == [Command(command, args[..w.send])];
      TraceFramesOne(Command(command, args[..w.send]));
      ReadResponses(result, responses, w.receive as int);
      ok := true;
    }

    /**
     * The sending half of ps2_command: the opcode, then the argument loop
     * over the first `send` bytes of `args`.
     */
    method SendCommand(command: bv16, args: seq<bv8>)
      requires |args| >= Decode(command).send as int
      modifies this`wire, this`commands
      ensures commands == old(commands) + [Command(command, args[..Decode(command).send])]
      ensures wire == old(wire) + Frames(WireBytes(Command(command, args[..Decode(command).send])))
    {
      var w := Decode(command);
      var send := w.send as int;
      Transmit(w.opcode);
      SendArguments(args, send);
      CommandFrames(Command(command, args[..send]));
      commands := commands + [Command(command, args[..send])];
    }

    /** reset(): the RESET_BAT command; the two reply bytes are read and discarded. */
    method Reset(reply: seq<bv8>)
      requires |reply| == 2
      modifies this
      ensures Valid() && Idle() && delivered == old(delivered)
      ensures commands == old(commands) + [Command(RESET_BAT, [])]
      ensures wire == old(wire) + TraceFrames(commands[|old(commands)|..])
    {
      var _ := Ps2Command(RESET_BAT, [], null, reply);
    }

    /** enable(): data reporting on. */
    method Enable()
      modifies this
      ensures Valid() && Idle() && delivered == old(delivered)
      ensures commands == old(commands) + [Command(ENABLE, [])]
      ensures wire == old(wire) + TraceFrames(commands[|old(commands)|..])
    {
      var _ := Ps2Command(ENABLE, [], null, []);
    }

    /** disable(): data reporting off. */
    method Disable()
      modifies this
      ensures Valid() && Idle() && delivered == old(delivered)
      ensures commands == old(commands) + [Command(DISABLE, [])]
      ensures wire == old(wire) + TraceFrames(commands[|old(commands)|..])
    {
      var _ := Ps2Command(DISABLE, [], null, []);
    }
  }

  /** The bits a command puts on the data line: the opcode's frame, then the arguments' frames. */
  lemma CommandFrames(c: Command)
    ensures Frames(WireBytes(c)) == Frame(Decode(c.word).opcode) + Frames(c.args)
  {
    FramesSnoc([], Decode(c.word).opcode);
    FramesAppend([Decode(c.word).opcode], c.args);
  }

  /** The bits a sequence of commands drives on the data line, frame after frame. */
  function TraceFrames(cs: seq<Command>): seq<bv1>
  {
    Frames(TraceBytes(cs))
  }

  /** The line bits of two runs of commands are those of the first run, then the second's. */
  lemma TraceFramesAppend(a: seq<Command>, b: seq<Command>)
    ensures TraceFrames(a + b) == TraceFrames(a) + TraceFrames(b)
  {
    TraceBytesAppend(a, b);
    FramesAppend(TraceBytes(a), TraceBytes(b));
  }

  /** reset, enable and disable each put the one frame of their opcode on the line. */
  lemma PlainCommandFrames()
    ensures TraceFrames([Command(RESET_BAT, [])]) == Frame(0xFF)
    ensures TraceFrames([Command(ENABLE, [])]) == Frame(0xF4)
    ensures TraceFrames([Command(DISABLE, [])]) == Frame(0xF5)
  {
    TraceFramesOne(Command(RESET_BAT, []));
    TraceFramesOne(Command(ENABLE, []));
    TraceFramesOne(Command(DISABLE, []));
    FramesSnoc([], 0xFF);
    FramesSnoc([], 0xF4);
    FramesSnoc([], 0xF5);
  }

  /** A single command's line bits are the frames of its bytes. */
  lemma TraceFramesOne(c: Command)
    ensures TraceFrames([c]) == Frames(WireBytes(c))
  {
    assert [c][..0] == [];
    assert TraceBytes([c]) == [] + WireBytes(c) == WireBytes(c);
  }

  /**
   * The response loop of ps2_command: the i-th byte read is stored at
   * result[i] when there is a result buffer.
   */
  method ReadResponses(result: array?<bv8>, responses: seq<bv8>, receive: nat)
    requires receive <= |responses|
    requires result != null ==> receive <= result.Length
    modifies result
    ensures result != null ==>
              result[..receive] == responses[..receive] &&
              result[receive..] == old(result[receive..])
  {
    var i := 0;
    while i < receive
      invariant 0 <= i <= receive
      invariant result != null ==>
                  result[..i] == responses[..i] &&
                  result[i..] == old(result[i..])
    {
      var response := responses[i];
      if result != null {
        result[i] := response;
        assert result[..i + 1] == result[..i] + [response];
      }
      i := i + 1;
    }
  }

  /** One step of read_byte's loop: bit i of the payload is ORed in at position i. */
  lemma ReadStep(line: seq<bv1>, i: nat, data: bv8)
    requires |line| == 11 && i <= 8
    requires data == PackLsb(line[1..1 + i])
    ensures i < 8 ==> data | ((line[1 + i] as bv8) << i) == PackLsb(line[1..2 + i])
    ensures i < 8 ==> Xor(line[1..2 + i]) == Xor(line[1..1 + i]) ^ line[1 + i]
    ensures i == 8 ==> Xor(line[1..10]) == Xor(line[1..9]) ^ line[9]
  {
    assert line[1..2 + i] == line[1..1 + i] + [line[1 + i]];
    if i < 8 {
      PackLsbSnoc(line[1..1 + i], line[1 + i]);
    }
    XorPrefix(line[1..], i);
    assert line[1..][..i + 1] == line[1..2 + i];
    assert line[1..][..i] == line[1..1 + i];
  }

  /** How a call of write_byte ends: with a value, or by running off its end. */
  datatype WriteOutcome = Returned(value: bool) | FellOffEnd

  /**
   * write_byte as written: on a missing ACK it returns false; when the ACK
   * arrives control reaches the closing brace without a return statement.
   */
  function WriteResultAsWritten(ack: bv8): (o: WriteOutcome)
    ensures o.FellOffEnd? <==> ack == 0xFA
    ensures o.Returned? ==> !o.value
  {
    if ack != 0xFA then Returned(false) else FellOffEnd
  }

  /** write_byte as intended: true exactly when the device acknowledged. */
  function WriteResult(ack: bv8): (o: WriteOutcome)
    ensures o.Returned? && (o.value <==> ack == 0xFA)
  {
    Returned(ack == 0xFA)
  }

  /** The two agree except on an acknowledged byte, where only the intended one returns. */
  lemma WriteResultDiffersOnAck(ack: bv8)
    ensures WriteResultAsWritten(ack) != WriteResult(ack) <==> ack == 0xFA
    ensures WriteResultAsWritten(0xFA) == FellOffEnd && WriteResult(0xFA) == Returned(true)
  {
  }
}
