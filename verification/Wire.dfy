/**
 * What the fake Wiimote sends during linking, as bytes (source/injmessage.c), and read again: its
 * packets pass through the same parser that takes the host's, so either end understands the other.
 */
module Wire {
  import opened Bytes
  import opened L2cap
  import FakeWiimote
  import HciState
  import Linking

  function PsmOf(w: Linking.Which): word {
    match w case Cntl => PSM_HID_CNTL case Intr => PSM_HID_INTR
  }

  predicate IsSignal(o: Linking.Out) {
    o.ConnectReq? || o.ConfigureReq? || o.DisconnectRsp? || (o.ConfigureRsp? && |o.options| < 0x8000)
  }

  /** The command of an output; requests use their code as identifier. */
  function SignalOf(o: Linking.Out): Signal
    requires IsSignal(o)
  {
    match o
    case ConnectReq(w, cid) => Signal(CONNECT_REQ, CONNECT_REQ, Le16(PsmOf(w)) + Le16(cid))
    case ConfigureReq(_, cid, _) =>
      Signal(CONFIG_REQ, CONFIG_REQ, Le16(cid) + Le16(0) + OptsBytes(ConfigOptions(WII_REQUEST_MTU, FLUSH_TIMO_DEFAULT)))
    case ConfigureRsp(cid, ident, options) => Signal(CONFIG_RSP, ident, Le16(cid) + Le16(0) + Le16(0) + options)
    case DisconnectRsp(ident, dcid, scid) => Signal(DISCONNECT_RSP, ident, Le16(dcid) + Le16(scid))
  }

  /** A built signalling packet arrives as a well-formed packet of exactly that command. */
  lemma PacketArrives(handle: word, s: Signal)
    requires SignalFits(s) && handle < 0x1000
    ensures var packet := SignalPacket(handle, s);
            && HciState.ConHandle(WordAt(packet, 0)) == handle && Val(WordAt(packet, 2)) == |packet| - ACL_HEADER
            && var p := packet[ACL_HEADER..];
               && FakeWiimote.PacketWellFormed(p) && FakeWiimote.PacketChannel(p) == SIGNAL_CID
               && FakeWiimote.PacketPayload(p) == SignalBytes(s)
               && SignalsWellFormed(FakeWiimote.PacketPayload(p)) && Signals(FakeWiimote.PacketPayload(p)) == [s]
  {
    hide Word, Val, FromLe16, Le16, HciState.ConHandle, L2capPacket, SignalBytes;
    var packet := SignalPacket(handle, s);
    var p := packet[ACL_HEADER..];
    PacketHeader(handle, SIGNAL_CID, SignalBytes(s));
    assert WordAt(p, 0) == WordAt(packet, 4) && WordAt(p, 2) == WordAt(packet, 6);
    assert p[4..] == packet[8..];
    OneSignal(s);
  }

  lemma OneSignal(s: Signal)
    requires SignalFits(s)
    ensures SignalsWellFormed(SignalBytes(s)) && Signals(SignalBytes(s)) == [s]
  {
    hide SignalBytes, Signals, SignalsWellFormed;
    assert [s][1..] == [] && SignalsBytes([]) == [];
    assert SignalsBytes([s]) == SignalBytes(s);
    SignalsUndoBytes([s]);
  }

  lemma TwoWords(a: word, b: word, rest: seq<byte>)
    ensures var s := Le16(a) + Le16(b) + rest;
            |s| == 4 + |rest| && WordAt(s, 0) == a && WordAt(s, 2) == b && s[4..] == rest
  {
    hide FromLe16, Low, High;
    var s := Le16(a) + Le16(b) + rest;
    Le16RoundTrip(a);
    Le16RoundTrip(b);
    assert s[0] == Le16(a)[0] && s[1] == Le16(a)[1] && s[2] == Le16(b)[0] && s[3] == Le16(b)[1];
  }

  /** The configuration request asks for a channel of the host and an MTU of 185, and nothing else. */
  lemma ConfigureRequestDecodes(w: Linking.Which, cid: word, ok: bool)
    ensures var s := SignalOf(Linking.ConfigureReq(w, cid, ok));
            && SignalFits(s) && Linking.SignalSized(s)
            && var r := Linking.Decode(s);
               && r.ConfigReq? && r.dcid == cid && r.flags == 0
               && ParsedMtu(r.options, MTU_DEFAULT) == WII_REQUEST_MTU
  {
    hide FromLe16, Low, High, OptsBytes, ConfigOptions, ParsedMtu, OptionsWellFormed, Le16;
    var options := OptsBytes(ConfigOptions(WII_REQUEST_MTU, FLUSH_TIMO_DEFAULT));
    TwoWords(cid, 0, options);
    ConfigRequestGivesBackMtu(WII_REQUEST_MTU, FLUSH_TIMO_DEFAULT);
    ShortOptions();
  }

  lemma ShortOptions()
    ensures |OptsBytes(ConfigOptions(WII_REQUEST_MTU, FLUSH_TIMO_DEFAULT))| == 4
  {
    hide Le16;
    OptionsSpelledOut(WII_REQUEST_MTU, FLUSH_TIMO_DEFAULT);
  }

  /** The response to a configuration request reports success for the host's channel, under the
      host's identifier, and repeats the host's options. */
  lemma ConfigureResponseDecodes(cid: word, ident: byte, options: seq<byte>)
    requires |options| < 0x8000
    ensures var s := SignalOf(Linking.ConfigureRsp(cid, ident, options));
            && SignalFits(s) && s.ident == ident && Linking.SignalSized(s)
            && Linking.Decode(s) == Linking.ConfigRsp(cid, 0)
            && s.payload[6..] == options
  {
    hide FromLe16, Low, High, Le16;
    assert Le16(cid) + Le16(0) + Le16(0) + options == Le16(cid) + Le16(0) + (Le16(0) + options);
    TwoWords(cid, 0, Le16(0) + options);
    Le16RoundTrip(0);
    var s := SignalOf(Linking.ConfigureRsp(cid, ident, options));
    assert s.payload[4] == Le16(0)[0] && s.payload[5] == Le16(0)[1];
  }

  /** Two Wiimotes' code talking to each other: the request of one, answered by the other, is a
      success for the channel that the other has on record for it. */
  lemma RequestIsAnswered(l: Linking.Link, w: Linking.Which, cid: word, ok: bool)
    requires Linking.ChannelOf(l, cid).Some?
    ensures var s := SignalOf(Linking.ConfigureReq(w, cid, ok));
            && Linking.SignalSized(s) && Linking.Expected(l, Linking.Decode(s))
            && var (l', outs) := Linking.OnRequest(l, Linking.Decode(s));
               var c := Linking.ChannelOf(l, cid).value;
               && l'.Get(c).remoteMtu == WII_REQUEST_MTU
               && |outs| == 1 && IsSignal(outs[0]) && Linking.SignalSized(SignalOf(outs[0]))
               && Linking.Decode(SignalOf(outs[0])) == Linking.ConfigRsp(l.Get(c).remoteCid, 0)
  {
    hide FromLe16, Low, High, OptsBytes, ConfigOptions, ParsedMtu, OptionsWellFormed, Le16;
    ConfigureRequestDecodes(w, cid, ok);
    var options := OptsBytes(ConfigOptions(WII_REQUEST_MTU, FLUSH_TIMO_DEFAULT));
    TwoWords(cid, 0, options);
    ShortOptions();
    ConfigureResponseDecodes(l.Get(Linking.ChannelOf(l, cid).value).remoteCid, CONFIG_REQ, options);
  }

  /** Connection requests and disconnection responses carry their two fields. */
  lemma TwoFieldSignals(w: Linking.Which, ident: byte, a: word, b: word)
    ensures var s := SignalOf(Linking.ConnectReq(w, a));
            SignalFits(s) && s.code == CONNECT_REQ && WordAt(s.payload, 0) == PsmOf(w) && WordAt(s.payload, 2) == a
    ensures var s := SignalOf(Linking.DisconnectRsp(ident, a, b));
            SignalFits(s) && s.code == DISCONNECT_RSP && s.ident == ident && WordAt(s.payload, 0) == a && WordAt(s.payload, 2) == b
  {
    hide FromLe16, Low, High, Le16;
    TwoWords(PsmOf(w), a, []);
    TwoWords(a, b, []);
    assert Le16(PsmOf(w)) + Le16(a) + [] == Le16(PsmOf(w)) + Le16(a);
    assert Le16(a) + Le16(b) + [] == Le16(a) + Le16(b);
  }

  // ---------------------------------------------------------------- byte by byte

  function LengthByte(n: nat): byte {
    if n == 4 then 4 else if n == 6 then 6 else 8
  }

  lemma ShortLength(n: nat)
    requires n in {4, 6, 8}
    ensures Le16(Word(n)) == [LengthByte(n), 0]
  {
    hide Word;
    assert Val(4) == 4 && Val(6) == 6 && Val(8) == 8;
    WordUnique(Word(n), LengthByte(n) as word);
  }

  lemma ShortSignal(code: byte, ident: byte, payload: seq<byte>)
    requires |payload| in {4, 6, 8}
    ensures SignalBytes(Signal(code, ident, payload)) == [code, ident, LengthByte(|payload|), 0] + payload
  {
    hide Le16, Word;
    ShortLength(|payload|);
  }

  /** The commands as they are sent: the two requests for a channel, the configuration request with its
      MTU of 185, and the two responses. */
  lemma SignalsSpelledOut(w: Linking.Which, ok: bool, cid: word, ident: byte, scid: word, options: seq<byte>)
    requires |options| < 0x8000
    ensures SignalBytes(SignalOf(Linking.ConnectReq(w, cid))) ==
            [0x02, 0x02, 4, 0] + [if w == Linking.Cntl then 0x11 else 0x13, 0] + Le16(cid)
    ensures SignalFits(SignalOf(Linking.ConfigureReq(w, cid, ok)))
    ensures SignalBytes(SignalOf(Linking.ConfigureReq(w, cid, ok))) ==
            [0x04, 0x04, 8, 0] + Le16(cid) + [0, 0, 0x01, 2, 0xB9, 0]
    ensures SignalBytes(SignalOf(Linking.ConfigureRsp(cid, ident, options))) ==
            [0x05, ident] + Le16(Word(6 + |options|)) + Le16(cid) + [0, 0, 0, 0] + options
    ensures SignalBytes(SignalOf(Linking.DisconnectRsp(ident, cid, scid))) ==
            [0x07, ident, 4, 0] + Le16(cid) + Le16(scid)
  {
    RequestSpelledOut(w, cid);
    ConfigureSpelledOut(w, ok, cid);
    ResponsesSpelledOut(cid, ident, scid, options);
  }

  lemma RequestSpelledOut(w: Linking.Which, cid: word)
    ensures SignalBytes(SignalOf(Linking.ConnectReq(w, cid))) ==
            [0x02, 0x02, 4, 0] + [if w == Linking.Cntl then 0x11 else 0x13, 0] + Le16(cid)
  {
    hide SignalBytes;
    var s := SignalOf(Linking.ConnectReq(w, cid));
    ShortSignal(s.code, s.ident, s.payload);
  }

  lemma ConfigureSpelledOut(w: Linking.Which, ok: bool, cid: word)
    ensures SignalFits(SignalOf(Linking.ConfigureReq(w, cid, ok)))
    ensures SignalBytes(SignalOf(Linking.ConfigureReq(w, cid, ok))) ==
            [0x04, 0x04, 8, 0] + Le16(cid) + [0, 0, 0x01, 2, 0xB9, 0]
  {
    hide SignalBytes, OptBytes, OptsBytes, ConfigOptions;
    ShortOptions();
    var s := SignalOf(Linking.ConfigureReq(w, cid, ok));
    OptionsSpelledOut(WII_REQUEST_MTU, FLUSH_TIMO_DEFAULT);
    MtuOption();
    ShortSignal(s.code, s.ident, s.payload);
  }

  lemma MtuOption()
    ensures OptBytes(Opt(OPT_MTU, Le16(WII_REQUEST_MTU))) == [0x01, 2, 0xB9, 0]
  {
    hide Byte;
    TwoIsAByte();
  }

  lemma ResponsesSpelledOut(cid: word, ident: byte, scid: word, options: seq<byte>)
    requires |options| < 0x8000
    ensures SignalBytes(SignalOf(Linking.ConfigureRsp(cid, ident, options))) ==
            [0x05, ident] + Le16(Word(6 + |options|)) + Le16(cid) + [0, 0, 0, 0] + options
    ensures SignalBytes(SignalOf(Linking.DisconnectRsp(ident, cid, scid))) ==
            [0x07, ident, 4, 0] + Le16(cid) + Le16(scid)
  {
    hide Word;
    var s := SignalOf(Linking.DisconnectRsp(ident, cid, scid));
    ShortSignal(s.code, s.ident, s.payload);
    assert Le16(0) == [0, 0];
    assert Le16(cid) + Le16(0) + Le16(0) + options == Le16(cid) + [0, 0, 0, 0] + options;
  }
}
