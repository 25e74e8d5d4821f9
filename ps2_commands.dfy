/**
 * The PS/2 mouse command words of ps2.h.
 *
 * A command word is 16 bits wide: the opcode sent to the device sits in the
 * low byte, the number of response bytes the device sends back sits in bits
 * 8-11 and the number of argument bytes the host sends after the opcode sits
 * in bits 12-15.
 */
module Ps2Commands {

  const SETSCALE11: bv16 := 0x00e6
  const SETRATE: bv16 := 0x10f3
  const ENABLE: bv16 := 0x00f4
  const DISABLE: bv16 := 0x00f5
  const RESET_BAT: bv16 := 0x02ff
  const SETRES: bv16 := 0x10e8
  const GETINFO: bv16 := 0x03e9

  /** The three fields packed into a command word. */
  datatype CommandWord = CommandWord(opcode: bv8, send: bv4, receive: bv4)

  /** Packs the fields into a word: the layout the constants above are written in. */
  function Encode(w: CommandWord): bv16
  {
    ((w.send as bv16) << 12) | ((w.receive as bv16) << 8) | (w.opcode as bv16)
  }

  /** Splits a command word the way ps2_command does. */
  function Decode(command: bv16): CommandWord
  {
    CommandWord((command & 0xFF) as bv8, ((command >> 12) & 0x0F) as bv4, ((command >> 8) & 0x0F) as bv4)
  }

  /** Every 16-bit word is the packing of its fields: decoding loses nothing. */
  lemma EncodeDecode(command: bv16)
    ensures Encode(Decode(command)) == command
  {
  }

  /** Packing then splitting gives back the fields. */
  lemma DecodeEncode(w: CommandWord)
    ensures Decode(Encode(w)) == w
  {
  }

  /** One call of ps2_command as the device sees it: the word and the argument bytes sent. */
  datatype Command = Command(word: bv16, args: seq<bv8>)

  /** The bytes a command puts on the bus: the opcode, then its arguments. */
  function WireBytes(c: Command): (bytes: seq<bv8>)
    ensures |bytes| == 1 + |c.args|
    ensures bytes[0] == Decode(c.word).opcode && bytes[1..] == c.args
  {
    [(c.word & 0xFF) as bv8] + c.args
  }

  /** The bytes a sequence of commands puts on the bus, in order. */
  function TraceBytes(cs: seq<Command>): seq<bv8>
  {
    if cs == [] then [] else TraceBytes(cs[..|cs| - 1]) + WireBytes(cs[|cs| - 1])
  }

  lemma {:induction false} TraceBytesAppend(a: seq<Command>, b: seq<Command>)
    ensures TraceBytes(a + b) == TraceBytes(a) + TraceBytes(b)
    decreases |b|
  {
    if b == [] {
      assert a + b == a;
    } else {
      var init, last := b[..|b| - 1], b[|b| - 1];
      assert (a + b)[..|a + b| - 1] == a + init && (a + b)[|a + b| - 1] == last;
      assert TraceBytes(a + b) == TraceBytes(a + init) + WireBytes(last);
      TraceBytesAppend(a, init);
      assert TraceBytes(b) == TraceBytes(init) + WireBytes(last);
    }
  }

  /** One more command puts its own bytes after the trace so far. */
  lemma TraceBytesSnoc(cs: seq<Command>, c: Command)
    ensures TraceBytes(cs + [c]) == TraceBytes(cs) + WireBytes(c)
  {
    assert (cs + [c])[..|cs|] == cs;
  }

  /** Each command of the table decodes to the opcode and counts the protocol gives it. */
  lemma CommandTable()
    ensures Decode(SETSCALE11) == CommandWord(0xE6, 0, 0)
    ensures Decode(SETRATE) == CommandWord(0xF3, 1, 0)
    ensures Decode(ENABLE) == CommandWord(0xF4, 0, 0)
    ensures Decode(DISABLE) == CommandWord(0xF5, 0, 0)
    ensures Decode(RESET_BAT) == CommandWord(0xFF, 0, 2)
    ensures Decode(SETRES) == CommandWord(0xE8, 1, 0)
    ensures Decode(GETINFO) == CommandWord(0xE9, 0, 3)
  {
  }
}
