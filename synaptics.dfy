/**
 * The Synaptics layer of synaptics.cpp: the special command sequences that
 * smuggle a byte to the TouchPad as four SETRES arguments, the information
 * queries, and init's decoding of the replies and its mode-setting
 * sequence. Every command goes through the Ps2.Port model.
 */
module Synaptics {
  import opened Ps2Commands
  import opened Ps2

  datatype Option<T> = None | Some(value: T)

  /**
   * The four SETRES arguments special_command sends for c: its bit pairs
   * 7-6, 5-4, 3-2 and 1-0, most significant pair first.
   */
  function SetResArgs(c: bv8): (args: seq<bv8>)
    ensures |args| == 4
    ensures forall i :: 0 <= i < 4 ==> args[i] < 4
  {
    [BitPair(c, 6), BitPair(c, 4), BitPair(c, 2), BitPair(c, 0)]
  }

  /** The byte four 2-bit arguments stand for, as the TouchPad reassembles it. */
  function JoinArgs(args: seq<bv8>): bv8
    requires |args| == 4
  {
    (args[0] << 6) | (args[1] << 4) | (args[2] << 2) | args[3]
  }

  /** The TouchPad gets back exactly the byte special_command was given. */
  lemma SetResArgsJoin(c: bv8)
    ensures JoinArgs(SetResArgs(c)) == c
  {
  }

  /** Any four 2-bit arguments are the split of the byte they spell. */
  lemma JoinSetResArgs(args: seq<bv8>)
    requires |args| == 4 && forall i :: 0 <= i < 4 ==> args[i] < 4
    ensures SetResArgs(JoinArgs(args)) == args
  {
    assert args[0] < 4 && args[1] < 4 && args[2] < 4 && args[3] < 4;
  }

  /** The two special commands of the mode sequence. */
  lemma SetResArgsExamples()
    ensures SetResArgs(0xC5) == [3, 0, 1, 1]
    ensures SetResArgs(0x03) == [0, 0, 0, 3]
  {
  }

  /** Bits i + 1 and i of c. */
  function BitPair(c: bv8, i: int): (pair: bv8)
    requires 0 <= i <= 6
    ensures pair < 4
  {
    (c >> i) & 0x03
  }

  /** The commands of special_command(c): one SETRES per argument, in order. */
  function SpecialCommands(c: bv8): (cs: seq<Command>)
    ensures |cs| == 4
  {
    var args := SetResArgs(c);
    [Command(SETRES, [args[0]]), Command(SETRES, [args[1]]), Command(SETRES, [args[2]]), Command(SETRES, [args[3]])]
  }

  /** The command special_command issues at its n-th loop step. */
  lemma SpecialCommandAt(c: bv8, n: nat)
    requires n < 4
    ensures SpecialCommands(c)[n] == Command(SETRES, [BitPair(c, 6 - 2 * n)])
  {
  }

  /** SETRES sends one argument byte and reads nothing back. */
  lemma SetResSend(r: bv8)
    ensures Decode(SETRES).send == 1 && Decode(SETRES).receive == 0
    ensures [r][..Decode(SETRES).send] == [r]
  {
  }

  /** The commands of status_request(arg): the special command, then GETINFO. */
  function StatusCommands(arg: bv8): seq<Command>
  {
    SpecialCommands(arg) + [Command(GETINFO, [])]
  }

  /** The four information queries of init, in order. */
  function QueryCommands(): seq<Command>
  {
    IdentityCommands() + ModelCommands()
  }

  /** The Identify (0x00) and Read Capabilities (0x02) queries. */
  function IdentityCommands(): seq<Command>
  {
    StatusCommands(0x00) + StatusCommands(0x02)
  }

  /** The Read Resolutions (0x08) and Extended Model ID (0x0C) queries. */
  function ModelCommands(): seq<Command>
  {
    StatusCommands(0x08) + StatusCommands(0x0C)
  }

  /**
   * init's mode sequence: absolute mode, high rate, W mode and extended W
   * mode, bracketed by disable and enable.
   */
  function ModeCommands(): seq<Command>
  {
    [Command(DISABLE, [])] + ModeBody() + [Command(ENABLE, [])]
  }

  /** The mode sequence without its disable and enable: its two halves. */
  function ModeBody(): seq<Command>
  {
    ModeHalf(0xC5, 0x14) + ModeHalf(0x03, 0xC8)
  }

  /** The mode sequence puts on the bus exactly the bytes the driver documents for it. */
  lemma ModeBytes()
    ensures TraceBytes(ModeCommands()) ==
              [0xF5] +
              [0xE6, 0xE6, 0xE8, 0x03, 0xE8, 0x00, 0xE8, 0x01, 0xE8, 0x01, 0xF3, 0x14] +
              [0xE6, 0xE6, 0xE8, 0x00, 0xE8, 0x00, 0xE8, 0x00, 0xE8, 0x03, 0xF3, 0xC8] +
              [0xF4]
  {
    var half1 := ModeHalf(0xC5, 0x14);
    var half2 := ModeHalf(0x03, 0xC8);
    var first := [Command(DISABLE, [])];
    var last := [Command(ENABLE, [])];
    FirstHalfBytes();
    SecondHalfBytes();
    SingleBytes(DISABLE);
    SingleBytes(ENABLE);
    TraceBytesAppend(half1, half2);
    TraceBytesAppend(first, ModeBody());
    TraceBytesAppend(first + ModeBody(), last);
  }

  /** A command without arguments puts its opcode alone on the bus. */
  lemma SingleBytes(word: bv16)
    ensures TraceBytes([Command(word, [])]) == [Decode(word).opcode]
  {
    var cs := [Command(word, [])];
    assert cs[..0] == [];
  }

  lemma FirstHalfBytes()
    ensures TraceBytes(ModeHalf(0xC5, 0x14)) ==
              [0xE6, 0xE6, 0xE8, 0x03, 0xE8, 0x00, 0xE8, 0x01, 0xE8, 0x01, 0xF3, 0x14]
  {
    ModeHalfBytes(0xC5, 0x14);
    SetResArgsExamples();
  }

  lemma SecondHalfBytes()
    ensures TraceBytes(ModeHalf(0x03, 0xC8)) ==
              [0xE6, 0xE6, 0xE8, 0x00, 0xE8, 0x00, 0xE8, 0x00, 0xE8, 0x03, 0xF3, 0xC8]
  {
    ModeHalfBytes(0x03, 0xC8);
    SetResArgsExamples();
  }

  /** One half of the mode sequence: SETSCALE11 twice, special_command(c), SETRATE rate. */
  function ModeHalf(c: bv8, rate: bv8): seq<Command>
  {
    [Command(SETSCALE11, []), Command(SETSCALE11, [])] + SpecialCommands(c) + [Command(SETRATE, [rate])]
  }

  /** The bytes of one half of the mode sequence. */
  lemma ModeHalfBytes(c: bv8, rate: bv8)
    ensures TraceBytes(ModeHalf(c, rate)) ==
              [0xE6, 0xE6] +
              [0xE8, SetResArgs(c)[0]] + [0xE8, SetResArgs(c)[1]] + [0xE8, SetResArgs(c)[2]] + [0xE8, SetResArgs(c)[3]] +
              [0xF3, rate]
  {
    var scale := [Command(SETSCALE11, []), Command(SETSCALE11, [])];
    var setRate := [Command(SETRATE, [rate])];
    TraceBytesAppend(scale + SpecialCommands(c), setRate);
    TraceBytesAppend(scale, SpecialCommands(c));
    SpecialBytes(c);
    assert TraceBytes(scale) == [0xE6, 0xE6] by {
      assert scale[..1][..0] == [] && scale[..1] == [Command(SETSCALE11, [])];
    }
    assert TraceBytes(setRate) == [0xF3, rate] by {
      assert setRate[..0] == [];
    }
  }

  /** special_command(c) puts SETRES and one 2-bit argument on the bus four times. */
  lemma SpecialBytes(c: bv8)
    ensures TraceBytes(SpecialCommands(c)) ==
              [0xE8, SetResArgs(c)[0]] + [0xE8, SetResArgs(c)[1]] + [0xE8, SetResArgs(c)[2]] + [0xE8, SetResArgs(c)[3]]
  {
    var args := SetResArgs(c);
    FourBytes(Command(SETRES, [args[0]]), Command(SETRES, [args[1]]), Command(SETRES, [args[2]]), Command(SETRES, [args[3]]));
    SetResBytes(args[0]);
    SetResBytes(args[1]);
    SetResBytes(args[2]);
    SetResBytes(args[3]);
  }

  /** Four commands put their bytes on the bus one after the other. */
  lemma FourBytes(c0: Command, c1: Command, c2: Command, c3: Command)
    ensures TraceBytes([c0, c1, c2, c3]) == WireBytes(c0) + WireBytes(c1) + WireBytes(c2) + WireBytes(c3)
  {
    assert [c0, c1, c2, c3] == [c0, c1, c2] + [c3];
    assert [c0, c1, c2] == [c0, c1] + [c2];
    assert [c0, c1] == [c0] + [c1];
    assert [c0] == [] + [c0];
    TraceBytesSnoc([], c0);
    TraceBytesSnoc([c0], c1);
    TraceBytesSnoc([c0, c1], c2);
    TraceBytesSnoc([c0, c1, c2], c3);
  }

  /** SETRES with its argument r puts 0xE8 and then r on the bus. */
  lemma SetResBytes(r: bv8)
    ensures WireBytes(Command(SETRES, [r])) == [0xE8, r]
  {
    var bytes := WireBytes(Command(SETRES, [r]));
    assert bytes[1..] == [r];
  }

  /** The firmware version of the Identify query (argument 0x00). */
  datatype Version = Version(major: bv8, minor: bv8)

  function DecodeVersion(r: seq<bv8>): (v: Version)
    requires |r| == 3
    ensures v.major < 16 && v.minor == r[0]
    ensures v.major == r[2] % 16
  {
    Version(r[2] & 0x0F, r[0])
  }

  /** The Read Capabilities query (argument 0x02), when the extended bit is set. */
  datatype Capabilities = Capabilities(extendedQueries: int, middleButton: bool, fourButtons: bool,
                                       multiFinger: bool, palmDetect: bool)

  function DecodeCapabilities(r: seq<bv8>): (c: Option<Capabilities>)
    requires |r| == 3
    ensures c.Some? <==> r[0] >= 0x80
    ensures c.Some? ==> c.value.extendedQueries == 0 || 9 <= c.value.extendedQueries <= 15
    ensures c.Some? ==> (c.value.extendedQueries == 0 <==> (r[0] / 16) % 8 == 0)
    ensures c.Some? && c.value.extendedQueries != 0 ==> c.value.extendedQueries == 8 + ((r[0] / 16) % 8) as int
    ensures c.Some? ==> (c.value.middleButton <==> (r[0] / 4) % 2 == 1)
    ensures c.Some? ==> (c.value.fourButtons <==> (r[2] / 8) % 2 == 1)
    ensures c.Some? ==> (c.value.multiFinger <==> (r[2] / 2) % 2 == 1)
    ensures c.Some? ==> (c.value.palmDetect <==> r[2] % 2 == 1)
  {
    if r[0] & 0x80 == 0 then None
    else
      var n := ((r[0] >> 4) & 0x07) as int;
      Some(Capabilities(if n >= 1 then n + 8 else n, r[0] & 0x04 != 0, r[2] & 0x08 != 0,
                        r[2] & 0x02 != 0, r[2] & 0x01 != 0))
  }

  /** The names init prints for the four ClickPad types. */
  const ClickpadNames: seq<string> := ["Not a ClickPad", "1-button ClickPad", "2-button ClickPad", "Reserved"]

  /**
   * The ClickPad type of the Extended Capabilities query: bit 4 of the
   * first byte is its low bit, bit 0 of the second byte its high bit.
   */
  function ClickpadType(r0: bv8, r1: bv8): (t: bv8)
    ensures t < 4 && (t as int) < |ClickpadNames|
  {
    ((r0 >> 4) & 0x01) | ((r1 << 1) & 0x02)
  }

  /** Bit 0 of the ClickPad type is bit 4 of r0, bit 1 is bit 0 of r1, and no other bit is set. */
  lemma ClickpadTypeBits(r0: bv8, r1: bv8)
    ensures Bit(ClickpadType(r0, r1), 0) == Bit(r0, 4)
    ensures Bit(ClickpadType(r0, r1), 1) == Bit(r1, 0)
    ensures ClickpadType(r0, r1) >> 2 == 0
  {
  }

  /** The Extended Capabilities query (argument 0x0C). */
  datatype ExtendedCapabilities = ExtendedCapabilities(coveredPadGesture: bool, clickpad: string,
                                                       advancedGestures: bool, clearPad: bool)

  function DecodeExtended(r: seq<bv8>): (e: ExtendedCapabilities)
    requires |r| == 3
    ensures e.clickpad == ClickpadNames[ClickpadType(r[0], r[1])]
    ensures e.coveredPadGesture <==> r[0] >= 0x80
    ensures e.advancedGestures <==> (r[0] / 8) % 2 == 1
    ensures e.clearPad <==> (r[0] / 4) % 2 == 1
  {
    ExtendedCapabilities(r[0] & 0x80 != 0, ClickpadNames[ClickpadType(r[0], r[1])],
                         r[0] & 0x08 != 0, r[0] & 0x04 != 0)
  }

  /** What init reports about the TouchPad. */
  datatype Report = Report(version: Version, capabilities: Option<Capabilities>,
                           unitsPerMmX: int, unitsPerMmY: int, extended: ExtendedCapabilities)

  /**
   * The TouchPad driver's state: the port it talks through and the
   * globals init fills in.
   */
  class Touchpad {
    const port: Port
    var unitsPerMmX: int
    var unitsPerMmY: int
    var clickpadType: bv8

    constructor (port: Port)
      ensures this.port == port
      ensures unitsPerMmX == 0 && unitsPerMmY == 0 && clickpadType == 0
    {
      this.port := port;
      unitsPerMmX, unitsPerMmY, clickpadType := 0, 0, 0;
    }

    /**
     * special_command: sends c two bits at a time as SETRES arguments,
     * most significant pair first.
     */
    method SpecialCommand(c: bv8)
      modifies port
      ensures port.Valid() && port.Idle() && port.delivered == old(port.delivered)
      ensures port.commands == old(port.commands) + SpecialCommands(c)
    {
      ghost var n := 0;
      var i := 6;
      while i >= 0
        invariant 0 <= n <= 4 && i == 6 - 2 * n
        invariant n > 0 ==> port.Valid() && port.Idle()
        invariant port.delivered == old(port.delivered)
        invariant port.commands == old(port.commands) + SpecialCommands(c)[..n]
        decreases i
      {
        var resolution := BitPair(c, i);
        SpecialCommandAt(c, n);
        SetResSend(resolution);
        Send(SETRES, [resolution]);
        assert SpecialCommands(c)[..n + 1] == SpecialCommands(c)[..n] + [Command(SETRES, [resolution])];
        i := i - 2;
        n := n + 1;
      }
      assert SpecialCommands(c)[..4] == SpecialCommands(c);
    }

    /** ps2_command without a result buffer, the way this layer issues every command but GETINFO. */
    method Send(command: bv16, args: seq<bv8>)
      requires |args| >= Decode(command).send as int && Decode(command).receive == 0
      modifies port
      ensures port.Valid() && port.Idle() && port.delivered == old(port.delivered)
      ensures port.commands == old(port.commands) + [Command(command, args[..Decode(command).send])]
    {
      var _ := port.Ps2Command(command, args, null, []);
    }

    /**
     * status_request: the special command for arg, then GETINFO, whose
     * three reply bytes `reply` land in result.
     */
    method StatusRequest(arg: bv8, result: array<bv8>, reply: seq<bv8>)
      requires result.Length >= 3 && |reply| >= 3
      modifies port, result
      ensures port.Valid() && port.Idle() && port.delivered == old(port.delivered)
      ensures port.commands == old(port.commands) + StatusCommands(arg)
      ensures result[..3] == reply[..3] && result[3..] == old(result[3..])
    {
      SpecialCommand(arg);
      CommandTable();
      var _ := port.Ps2Command(GETINFO, [], result, reply);
    }

    /**
     * init: the four information queries, each decoded as init prints it,
     * then the mode sequence. The replies are the three bytes the TouchPad
     * answers to each query; the result is every value init decodes from
     * them, including the ClearPad flag it computes but does not print.
     */
    method Init(versionReply: seq<bv8>, capsReply: seq<bv8>, resolutionReply: seq<bv8>, extendedReply: seq<bv8>)
      returns (report: Report)
      requires |versionReply| == 3 && |capsReply| == 3 && |resolutionReply| == 3 && |extendedReply| == 3
      modifies this, port
      ensures port.Valid() && port.Idle() && port.delivered == old(port.delivered)
      ensures port.commands == old(port.commands) + QueryCommands() + ModeCommands()
      ensures unitsPerMmX == resolutionReply[0] as int && unitsPerMmY == resolutionReply[2] as int
      ensures clickpadType == ClickpadType(extendedReply[0], extendedReply[1])
      ensures report == Report(DecodeVersion(versionReply), DecodeCapabilities(capsReply),
                               resolutionReply[0] as int, resolutionReply[2] as int, DecodeExtended(extendedReply))
    {
      report := QueryInfo(versionReply, capsReply, resolutionReply, extendedReply);
      SetMode();
    }

    /** The information queries at the start of init and the decoding of their replies. */
    method QueryInfo(versionReply: seq<bv8>, capsReply: seq<bv8>, resolutionReply: seq<bv8>, extendedReply: seq<bv8>)
      returns (report: Report)
      requires |versionReply| == 3 && |capsReply| == 3 && |resolutionReply| == 3 && |extendedReply| == 3
      modifies this, port
      ensures port.Valid() && port.Idle() && port.delivered == old(port.delivered)
      ensures port.commands == old(port.commands) + QueryCommands()
      ensures unitsPerMmX == resolutionReply[0] as int && unitsPerMmY == resolutionReply[2] as int
      ensures clickpadType == ClickpadType(extendedReply[0], extendedReply[1])
      ensures report == Report(DecodeVersion(versionReply), DecodeCapabilities(capsReply),
                               resolutionReply[0] as int, resolutionReply[2] as int, DecodeExtended(extendedReply))
    {
      var result := new bv8[3];
      var version, capabilities := QueryIdentity(result, versionReply, capsReply);
      var extended := QueryModel(result, resolutionReply, extendedReply);
      report := Report(version, capabilities, unitsPerMmX, unitsPerMmY, extended);
    }

    /** The Identify (0x00) and Read Capabilities (0x02) queries, decoded. */
    method QueryIdentity(result: array<bv8>, versionReply: seq<bv8>, capsReply: seq<bv8>)
      returns (version: Version, capabilities: Option<Capabilities>)
      requires result.Length == 3 && |versionReply| == 3 && |capsReply| == 3
      modifies port, result
      ensures port.Valid() && port.Idle() && port.delivered == old(port.delivered)
      ensures port.commands == old(port.commands) + IdentityCommands()
      ensures version == DecodeVersion(versionReply) && capabilities == DecodeCapabilities(capsReply)
    {
      StatusRequest(0x00, result, versionReply);
      assert result[..] == versionReply;
      version := DecodeVersion(result[..]);
      StatusRequest(0x02, result, capsReply);
      assert result[..] == capsReply;
      capabilities := DecodeCapabilities(result[..]);
    }

    /** The Read Resolutions (0x08) and Extended Model ID (0x0C) queries, decoded into the driver's globals. */
    method QueryModel(result: array<bv8>, resolutionReply: seq<bv8>, extendedReply: seq<bv8>)
      returns (extended: ExtendedCapabilities)
      requires result.Length == 3 && |resolutionReply| == 3 && |extendedReply| == 3
      modifies this, port, result
      ensures port.Valid() && port.Idle() && port.delivered == old(port.delivered)
      ensures port.commands == old(port.commands) + ModelCommands()
      ensures unitsPerMmX == resolutionReply[0] as int && unitsPerMmY == resolutionReply[2] as int
      ensures clickpadType == ClickpadType(extendedReply[0], extendedReply[1])
      ensures extended == DecodeExtended(extendedReply)
    {
      StatusRequest(0x08, result, resolutionReply);
      assert result[..] == resolutionReply;
      unitsPerMmX := result[0] as int;
      unitsPerMmY := result[2] as int;
      StatusRequest(0x0C, result, extendedReply);
      assert result[..] == extendedReply;
      extended := DecodeExtended(result[..]);
      clickpadType := ClickpadType(result[0], result[1]);
    }

    /** The mode sequence at the end of init. */
    method SetMode()
      modifies port
      ensures port.Valid() && port.Idle() && port.delivered == old(port.delivered)
      ensures port.commands == old(port.commands) + ModeCommands()
    {
      port.Disable();
      SetModeBody();
      port.Enable();
    }

    /** The two blocks of the mode sequence, between disable and enable. */
    method SetModeBody()
      modifies port
      ensures port.Valid() && port.Idle() && port.delivered == old(port.delivered)
      ensures port.commands == old(port.commands) + ModeBody()
    {
      SetModeHalf(0xC5, 0x14);
      SetModeHalf(0x03, 0xC8);
    }

    /** One block of the mode sequence: SETSCALE11 twice, special_command(c), SETRATE rate. */
    method SetModeHalf(c: bv8, rate: bv8)
      modifies port
      ensures port.Valid() && port.Idle() && port.delivered == old(port.delivered)
      ensures port.commands == old(port.commands) + ModeHalf(c, rate)
    {
      CommandTable();
      var none: seq<bv8> := [];
      assert none[..Decode(SETSCALE11).send] == [];
      Send(SETSCALE11, none);
      Send(SETSCALE11, none);
      SpecialCommand(c);
      var sampleRate := rate;
      assert [sampleRate][..Decode(SETRATE).send] == [sampleRate];
      Send(SETRATE, [sampleRate]);
    }
  }
}
