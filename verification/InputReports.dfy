/**
 * Input reports on the wire (the report structs of include/wiimote.h, sent by
 * source/fake_wiimote.c), and how a host reads them.
 */
module InputReports {
  import opened Bytes
  import opened Registers
  import HciState
  import L2cap
  import Linking
  import OutputReports
  import Pad

  /** The fields fit the report. A data report has an identifier of its own. */
  predicate Sendable(o: Pad.Out) {
    match o
    case AckReport(_, _, error) => error < 0x100
    case StatusReport(_, leds, _, _) => leds < 0x10
    case ReadReply(r) => r.sizeMinusOne < 0x10 && r.error < 0x10 && r.address < 0x1_0000 && |r.data| == 16
    case DataReport(mode, _) => mode != 0x20 && mode != 0x21 && mode != 0x22
  }

  function ButtonWord(b: word): (s: seq<byte>)
    ensures |s| == 2
  {
    [High(b), Low(b)]
  }

  function StatusByte(leds: byte, ir: bool, extension: bool): byte {
    (leds << 4) | OutputReports.BitIf(ir, 8) | OutputReports.BitIf(extension, 2)
  }

  function TwoNibbles(upper: byte, lower: byte): byte { (upper << 4) | lower }

  /** The report with its identifier; two bytes of a status report are whatever was on the stack. */
  function ReportBytes(o: Pad.Out, padding: (byte, byte)): (s: seq<byte>)
    requires Sendable(o)
    ensures |s| >= 1
  {
    match o
    case AckReport(buttons, id, error) => [0x22] + ButtonWord(buttons) + [id, Byte(error)]
    case StatusReport(buttons, leds, ir, extension) =>
      [0x20] + ButtonWord(buttons) + [StatusByte(leds, ir, extension), padding.0, padding.1, 0xFF]
    case ReadReply(r) =>
      [0x21] + ButtonWord(r.buttons) + [TwoNibbles(Byte(r.sizeMinusOne), Byte(r.error))]
      + OutputReports.BigEndian(r.address) + r.data
    case DataReport(mode, payload) => [mode] + payload
  }

  /** What a host makes of it. */
  function HostReport(s: seq<byte>): Pad.Out
    requires |s| >= 1 && (s[0] == 0x22 ==> |s| >= 5) && (s[0] == 0x20 ==> |s| >= 7) && (s[0] == 0x21 ==> |s| >= 22)
  {
    if s[0] == 0x22 then Pad.AckReport(HostWord(s[1], s[2]), s[3], s[4] as nat)
    else if s[0] == 0x20 then Pad.StatusReport(HostWord(s[1], s[2]), s[3] >> 4, s[3] & 8 != 0, s[3] & 2 != 0)
    else if s[0] == 0x21 then
      Pad.ReadReply(Reply(HostWord(s[1], s[2]), (s[3] >> 4) as nat, (s[3] & 0xF) as nat, Big16(s[4], s[5]), s[6..22]))
    else Pad.DataReport(s[0], s[1..])
  }

  function HostWord(high: byte, low: byte): word { ((high as word) << 8) | (low as word) }

  lemma WordArrives(w: word)
    ensures HostWord(High(w), Low(w)) == w
  {
  }

  lemma StatusArrives(leds: byte, ir: bool, extension: bool)
    requires leds < 0x10
    ensures var b := StatusByte(leds, ir, extension); b >> 4 == leds && (b & 8 != 0 <==> ir) && (b & 2 != 0 <==> extension)
  {
  }

  lemma NibblesArrive(upper: byte, lower: byte)
    requires upper < 0x10 && lower < 0x10
    ensures TwoNibbles(upper, lower) >> 4 == upper && TwoNibbles(upper, lower) & 0xF == lower
  {
  }

  lemma SmallNibble(n: nat)
    requires n < 0x10
    ensures Byte(n) < 0x10
  {
    BelowNibble(Byte(n));
  }

  lemma BelowNibble(b: byte)
    requires b as nat < 0x10
    ensures b < 0x10
  {
  }

  /** Every report arrives at the host as it was sent. */
  lemma ReportArrives(o: Pad.Out, padding: (byte, byte))
    requires Sendable(o)
    ensures var s := ReportBytes(o, padding);
            && (s[0] == 0x22 ==> |s| >= 5) && (s[0] == 0x20 ==> |s| >= 7) && (s[0] == 0x21 ==> |s| >= 22)
            && HostReport(s) == o
  {
    hide HostWord, StatusByte, TwoNibbles, Byte, High, Low;
    match o
    case AckReport(buttons, _, _) => WordArrives(buttons);
    case StatusReport(buttons, leds, ir, extension) =>
      WordArrives(buttons);
      StatusArrives(leds, ir, extension);
    case ReadReply(r) => ReadReplyArrives(r, padding);
    case DataReport(_, payload) =>
      assert ReportBytes(o, padding)[1..] == payload;
  }

  lemma ReadReplyArrives(r: Reply, padding: (byte, byte))
    requires Sendable(Pad.ReadReply(r))
    ensures var s := ReportBytes(Pad.ReadReply(r), padding); |s| == 22 && s[0] == 0x21 && HostReport(s) == Pad.ReadReply(r)
  {
    hide HostWord, TwoNibbles, Byte, High, Low, Big16, OutputReports.BigEndian;
    WordArrives(r.buttons);
    SmallNibble(r.sizeMinusOne);
    SmallNibble(r.error);
    NibblesArrive(Byte(r.sizeMinusOne), Byte(r.error));
    OutputReports.BigEndianValue(r.address);
    assert ReportBytes(Pad.ReadReply(r), padding)[6..22] == r.data;
  }

  // ---------------------------------------------------------------- as a packet

  /** The ACL packet of a report: to the host's end of the interrupt channel. */
  function ReportPacket(l: Linking.Link, o: Pad.Out, padding: (byte, byte)): seq<byte>
    requires Sendable(o) && |ReportBytes(o, padding)| < 0x100
  {
    L2cap.L2capPacket(l.conHandle, l.intr.remoteCid, [0xA1] + ReportBytes(o, padding))
  }

  /** Every report goes out on the Wiimote's connection, to the identifier that the host gave, as the bytes
      that ReportArrives reads. */
  lemma ReportPacketArrives(l: Linking.Link, o: Pad.Out, padding: (byte, byte))
    requires Sendable(o) && |ReportBytes(o, padding)| < 0x100 && l.conHandle < 0x1000
    ensures var s := ReportPacket(l, o, padding);
            && |s| == 9 + |ReportBytes(o, padding)|
            && HciState.ConHandle(WordAt(s, 0)) == l.conHandle && WordAt(s, 6) == l.intr.remoteCid
            && Val(WordAt(s, 2)) == |s| - 4 && Val(WordAt(s, 4)) == |s| - 8
            && s[8] == 0xA1 && s[9..] == ReportBytes(o, padding)
  {
    hide Word, Val, FromLe16, Le16, HciState.ConHandle, L2cap.L2capPacket, ReportBytes;
    L2cap.PacketHeader(l.conHandle, l.intr.remoteCid, [0xA1] + ReportBytes(o, padding));
    var s := ReportPacket(l, o, padding);
    assert s[8..][0] == s[8] && s[8..][1..] == s[9..];
  }
}
