/**
 * Output reports as the host writes them (the report structs of include/wiimote.h), and what the
 * fake Wiimote makes of them. Bit fields are laid out from the high bit down.
 */
module OutputReports {
  import opened Bytes
  import opened Registers
  import opened FakeWiimote
  import Crypto
  import HciState
  import Histories
  import L2cap
  import Linking
  import Manager
  import Pad

  /** The fields fit the report. */
  predicate Encodable(c: Pad.HidCommand) {
    match c
    case Led(leds, _) => leds < 0x10
    case WriteData(w) => w.space < 4 && w.slave < 0x80 && w.address < 0x1_0000 && w.size < 0x100 && |w.data| == 16
    case ReadData(r) => r.space < 4 && r.slave < 0x80 && r.address < 0x1_0000 && r.size < 0x1_0000
    case FeatureAck(id, _) => id == 0x14 || id == 0x19 || id == 0x1a
    case _ => true
  }

  function BitIf(on: bool, bit: byte): byte { if on then bit else 0 }

  function BigEndian(n: nat): (s: seq<byte>)
    requires n < 0x1_0000
    ensures |s| == 2
  {
    [Byte(n / 0x100), Byte(n % 0x100)]
  }

  /** The first byte of most reports: LEDs, one flag, the request for an acknowledgement, rumble. */
  function FlagByte(leds: byte, flag: bool, ack: bool, rumble: bool): byte {
    (leds << 4) | BitIf(flag, 4) | BitIf(ack, 2) | BitIf(rumble, 1)
  }

  function WriteHeader(w: WriteRequest, rumble: byte, rw: byte): (s: seq<byte>)
    requires Encodable(Pad.WriteData(w))
    ensures |s| == 6
  {
    [0x16, (Byte(w.space) << 2) | rumble, (Byte(w.slave) << 1) | rw] + BigEndian(w.address) + [Byte(w.size)]
  }

  /** Every report carries the rumble bit; a register access also carries the bus's read bit. */
  function EncodeHid(c: Pad.HidCommand, rumble: bool, rw: bool): (s: seq<byte>)
    requires Encodable(c)
    ensures |s| >= 2
  {
    var r := BitIf(rumble, 1);
    match c
    case Rumble => [0x10, r]
    case Led(leds, ack) => [0x11, FlagByte(leds, false, ack, rumble)]
    case ReportMode(mode, continuous, ack) => [0x12, FlagByte(0, continuous, ack, rumble), mode]
    case IrEnable(enable, ack) => [0x13, FlagByte(0, enable, ack, rumble)]
    case RequestStatus => [0x15, r]
    case WriteData(w) =>
      WriteHeader(w, r, BitIf(rw, 1)) + w.data
    case ReadData(q) =>
      [0x17, (Byte(q.space) << 2) | r, (Byte(q.slave) << 1) | BitIf(rw, 1)] + BigEndian(q.address) + BigEndian(q.size)
    case SpeakerData => [0x18, r]
    case FeatureAck(id, ack) => [id, FlagByte(0, false, ack, rumble)]
  }

  lemma FlagBits(leds: byte, flag: bool, ack: bool, rumble: bool)
    requires leds < 0x10
    ensures var b := FlagByte(leds, flag, ack, rumble);
            Bits(b, 4, 0xF) == leds && (Flag(b, 2) <==> flag) && (Flag(b, 1) <==> ack)
  {
  }

  lemma SpaceBits(space: byte, one: bool)
    requires space < 4
    ensures Bits((space << 2) | BitIf(one, 1), 2, 3) == space
  {
  }

  lemma SlaveBits(slave: byte, one: bool)
    requires slave < 0x80
    ensures Bits((slave << 1) | BitIf(one, 1), 1, 0x7F) == slave
  {
  }

  lemma SmallByte(n: nat)
    requires n < 0x100
    ensures (n < 4 ==> Byte(n) < 4) && (n < 0x80 ==> Byte(n) < 0x80)
  {
    BelowByte(Byte(n));
  }

  lemma BelowByte(b: byte)
    ensures (b as nat < 4 ==> b < 4) && (b as nat < 0x80 ==> b < 0x80)
  {
  }

  lemma BigEndianValue(n: nat)
    requires n < 0x1_0000
    ensures Big16(BigEndian(n)[0], BigEndian(n)[1]) == n
  {
  }

  /** Every command arrives as it was written, whatever the rumble and bus bits say. */
  lemma HidArrives(c: Pad.HidCommand, rumble: bool, rw: bool)
    requires Encodable(c)
    ensures HidWellFormed(EncodeHid(c, rumble, rw)) && DecodeHid(EncodeHid(c, rumble, rw)) == c
  {
    hide EncodeHid, DecodeHid, HidWellFormed;
    match c
    case WriteData(w) => WriteArrives(w, rumble, rw);
    case ReadData(r) => ReadArrives(r, rumble, rw);
    case Led(leds, ack) => LedArrives(leds, ack, rumble, rw);
    case ReportMode(mode, continuous, ack) => ModeArrives(mode, continuous, ack, rumble, rw);
    case _ => OthersArrive(c, rumble, rw);
  }

  lemma LedArrives(leds: byte, ack: bool, rumble: bool, rw: bool)
    requires leds < 0x10
    ensures var s := EncodeHid(Pad.Led(leds, ack), rumble, rw); HidWellFormed(s) && DecodeHid(s) == Pad.Led(leds, ack)
  {
    hide Bits, Flag, FlagByte;
    FlagBits(leds, false, ack, rumble);
  }

  lemma ModeArrives(mode: byte, continuous: bool, ack: bool, rumble: bool, rw: bool)
    ensures var s := EncodeHid(Pad.ReportMode(mode, continuous, ack), rumble, rw);
            HidWellFormed(s) && DecodeHid(s) == Pad.ReportMode(mode, continuous, ack)
  {
    hide Bits, Flag, FlagByte;
    FlagBits(0, continuous, ack, rumble);
  }

  lemma OthersArrive(c: Pad.HidCommand, rumble: bool, rw: bool)
    requires Encodable(c) && !c.WriteData? && !c.ReadData? && !c.Led? && !c.ReportMode?
    ensures var s := EncodeHid(c, rumble, rw); HidWellFormed(s) && DecodeHid(s) == c
  {
    hide Bits, Flag, FlagByte;
    match c
    case IrEnable(enable, ack) => FlagBits(0, enable, ack, rumble);
    case FeatureAck(id, ack) => FlagBits(0, false, ack, rumble);
    case _ =>
  }

  lemma WriteArrives(w: WriteRequest, rumble: bool, rw: bool)
    requires Encodable(Pad.WriteData(w))
    ensures var s := EncodeHid(Pad.WriteData(w), rumble, rw); HidWellFormed(s) && DecodeHid(s) == Pad.WriteData(w)
  {
    hide Bits, BitIf, Byte, Big16, WriteHeader, Flag;
    var s := EncodeHid(Pad.WriteData(w), rumble, rw);
    var h := WriteHeader(w, BitIf(rumble, 1), BitIf(rw, 1));
    HeaderFields(w, rumble, rw);
    assert s == h + w.data && |s| == 22;
    assert s[0] == h[0] && s[1] == h[1] && s[2] == h[2] && s[3] == h[3] && s[4] == h[4] && s[5] == h[5];
    assert s[6..22] == w.data;
  }

  lemma HeaderFields(w: WriteRequest, rumble: bool, rw: bool)
    requires Encodable(Pad.WriteData(w))
    ensures var h := WriteHeader(w, BitIf(rumble, 1), BitIf(rw, 1));
            && h[0] == 0x16 && Bits(h[1], 2, 3) as nat == w.space && Bits(h[2], 1, 0x7F) as nat == w.slave
            && Big16(h[3], h[4]) == w.address && h[5] as nat == w.size
  {
    hide Bits, BitIf, Byte, Big16, BigEndian;
    SmallByte(w.space);
    SmallByte(w.slave);
    SpaceBits(Byte(w.space), rumble);
    SlaveBits(Byte(w.slave), rw);
    BigEndianValue(w.address);
  }

  lemma ReadArrives(r: ReadRequest, rumble: bool, rw: bool)
    requires Encodable(Pad.ReadData(r))
    ensures var s := EncodeHid(Pad.ReadData(r), rumble, rw); HidWellFormed(s) && DecodeHid(s) == Pad.ReadData(r)
  {
    hide Bits, BitIf, Byte, Big16, BigEndian;
    SmallByte(r.space);
    SmallByte(r.slave);
    SpaceBits(Byte(r.space), rumble);
    SlaveBits(Byte(r.slave), rw);
    BigEndianValue(r.address);
    BigEndianValue(r.size);
  }

  // ---------------------------------------------------------------- as a packet of the system

  /** The ACL packet in which the host sends an output report to a channel of the Wiimote. */
  function HidPacket(handle: word, cid: word, c: Pad.HidCommand, rumble: bool, rw: bool): seq<byte>
    requires Encodable(c)
  {
    L2cap.L2capPacket(handle, cid, [0xA2] + EncodeHid(c, rumble, rw))
  }

  lemma HidPacketParts(handle: word, cid: word, c: Pad.HidCommand, rumble: bool, rw: bool)
    requires Encodable(c) && handle < 0x1000
    ensures var packet := HidPacket(handle, cid, c, rumble, rw);
            && |packet| >= 4 && HciState.ConHandle(WordAt(packet, 0)) == handle
            && PacketWellFormed(packet[4..]) && PacketChannel(packet[4..]) == cid
            && PacketPayload(packet[4..]) == [0xA2] + EncodeHid(c, rumble, rw)
  {
    hide Word, Val, FromLe16, Le16, HciState.ConHandle, L2cap.L2capPacket, EncodeHid;
    var payload := [0xA2] + EncodeHid(c, rumble, rw);
    var packet := HidPacket(handle, cid, c, rumble, rw);
    ShortReport(c, rumble, rw);
    L2cap.PacketHeader(handle, cid, payload);
    var p := packet[4..];
    assert WordAt(p, 0) == WordAt(packet, 4) && WordAt(p, 2) == WordAt(packet, 6);
    assert p[4..] == packet[8..];
  }

  lemma ShortReport(c: Pad.HidCommand, rumble: bool, rw: bool)
    requires Encodable(c)
    ensures |EncodeHid(c, rumble, rw)| <= 22
  {
    hide Byte;
  }

  /** Wiimote i is connected under a handle of its own, and its interrupt channel (PSM 0x13) is open under
      an identifier of its own. */
  predicate Listens(s: Manager.Sys, i: nat) {
    && i < |s.ws| && s.ws[i].Connected()
    && var l := s.ws[i].link;
       && l.conHandle < 0x1000 && Manager.FakeFor(s.ws, l.conHandle) == Some(i)
       && l.intr.valid && l.intr.psm == 0x13 && l.intr.localCid != 0x0001
       && (l.cntl.valid ==> l.cntl.localCid != l.intr.localCid)
  }

  /** The host sends Wiimote i a report. */
  function HidEvent(s: Manager.Sys, i: nat, c: Pad.HidCommand, rumble: bool, rw: bool): (e: Manager.Event)
    requires i < |s.ws| && Encodable(c)
    ensures !e.Timer?
  {
    Manager.AclOut(HidPacket(s.ws[i].link.conHandle, s.ws[i].link.intr.localCid, c, rumble, rw))
  }

  /** The host's bytes, sent to a connected Wiimote's interrupt channel, are that command to its pad. */
  lemma HidPacketArrives(t: Crypto.Tables, s: Manager.Sys, i: nat, c: Pad.HidCommand, rumble: bool, rw: bool)
    requires Manager.Inv(t, s) && Listens(s, i) && Encodable(c)
    requires Shaped(s.ws[i].pad.mem) && Pad.HidReadable(t, s.ws[i].pad, c)
    ensures var e := HidEvent(s, i, c, rumble, rw);
            Manager.Enabled(t, s, e) && Histories.PadEvents(t, s, e, i) == [Pad.Told(c)]
  {
    hide Manager.Inv, EncodeHid, DecodeHid, HidWellFormed, HidPacket, Pad.HidReadable, Shaped, WordAt, Val,
         L2cap.SignalsWellFormed, SignalsExpected, L2cap.Signals;
    var l := s.ws[i].link;
    HidPacketParts(l.conHandle, l.intr.localCid, c, rumble, rw);
    HidArrives(c, rumble, rw);
    var packet := HidPacket(l.conHandle, l.intr.localCid, c, rumble, rw);
    assert PacketPayload(packet[4..])[1..] == EncodeHid(c, rumble, rw);
  }

  /** The host sends the bytes of a read request and es follows, in which it does not write and in which
      the read is finished. */
  ghost predicate ReadRun(t: Crypto.Tables, s: Manager.Sys, i: nat, e: Manager.Event, es: seq<Manager.Event>)
    requires t.Valid() && Manager.Enabled(t, s, e)
  {
    var s' := Manager.Step(t, s, e);
    && i < |s'.ws| && Manager.Legal(t, s', es) && Histories.Active(t, s', es, i)
    && var (p, ps) := (s'.ws[i].pad, Histories.PadTrace(t, s', es, i));
       && Pad.Legal(t, p, ps) && Pad.InProgress(t, p, ps) && (forall k :: 0 <= k < |ps| ==> !Pad.IsWrite(ps[k]))
       && i < |Manager.After(t, s', es).ws| && Manager.After(t, s', es).ws[i].pad.mem.req.size == 0
  }

  /** In every run of the system: the host sends the bytes of an in-range read request, and what comes
      back is one atomic read of the registers, unless the host writes meanwhile. */
  lemma ReadBytesInEveryRun(t: Crypto.Tables, s: Manager.Sys, i: nat, r: ReadRequest, rumble: bool, rw: bool, es: seq<Manager.Event>)
    requires Manager.Inv(t, s) && Listens(s, i) && Shaped(s.ws[i].pad.mem) && s.ws[i].pad.mem.req.size == 0
    requires Encodable(Pad.ReadData(r)) && r.size > 0 && WholeError(r) == ERROR_SUCCESS
    requires AtExt(r) ==> Decryptable(t, s.ws[i].pad.mem.ext)
    requires var e := HidEvent(s, i, Pad.ReadData(r), rumble, rw); Manager.Enabled(t, s, e) ==> ReadRun(t, s, i, e, es)
    ensures var e := HidEvent(s, i, Pad.ReadData(r), rumble, rw);
            && Manager.Enabled(t, s, e) && ReadRun(t, s, i, e, es)
            && var sent := Histories.Sent(t, s, e, i) + Histories.SentOver(t, Manager.Step(t, s, e), es, i);
               var replies := Pad.ReadReplies(Histories.PadOuts(sent));
               && |replies| == Chunks(r.size) && Pad.DataOf(replies) == Snapshot(t, s.ws[i].pad.mem, r)
               && forall k :: 0 <= k < |replies| ==> replies[k].error == ERROR_SUCCESS
  {
    hide Manager.Inv, Manager.Enabled, Manager.Step, Manager.Legal, HidPacket, Histories.PadEvents, Histories.Sent,
         Histories.SentOver, Histories.PadTrace, Pad.ReadReplies, Pad.DataOf, Snapshot, Shaped, Decryptable, HidEvent;
    var c := Pad.ReadData(r);
    HidPacketArrives(t, s, i, c, rumble, rw);
    Histories.ReadIsAtomicInEveryRun(t, s, HidEvent(s, i, c, rumble, rw), es, i, r);
  }
}
