/**
 * The life of a fake Wiimote's connection in the protocols' own bytes: its request, the host's
 * signalling commands and what each of them changes, and its end (source/fake_wiimote.c,
 * source/fake_wiimote_mgr.c).
 */
module Connections {
  import opened Bytes
  import opened FakeWiimote
  import opened Manager
  import opened Crypto
  import HciState
  import Histories
  import InputDevices
  import L2cap
  import Linking
  import Pad
  import Registers
  import Wire

  // ---------------------------------------------------------------- the request

  /** What a Wiimote that wants to be connected sends in a history: one request per period with page
      scan on, until one could be injected. */
  function RequestsIn(es: seq<Linking.Event>): seq<Linking.Out> {
    if es == [] then []
    else if !es[0].Ticked? || !es[0].env.canRequest then RequestsIn(es[1..])
    else if es[0].env.okRequest then [Linking.ConnectionRequest(true)]
    else [Linking.ConnectionRequest(false)] + RequestsIn(es[1..])
  }

  predicate RequestSucceeds(e: Linking.Event) {
    e.Ticked? && e.env.canRequest && e.env.okRequest
  }

  /** Without channels nothing of the host's means the Wiimote, and it stands still once its request
      is out. */
  lemma IdleStep(l: Linking.Link, e: Linking.Event)
    requires !e.Accept? && Linking.Enabled(l, e) && !l.cntl.valid && !l.intr.valid
    requires l.baseband != Linking.BasebandComplete
    ensures var (l', outs) := Linking.Step(l, e);
            && l'.acl == l.acl && !l'.cntl.valid && !l'.intr.valid
            && if l.baseband == Linking.RequestConnection && e.Ticked? && e.env.canRequest then
                 && outs == [Linking.ConnectionRequest(e.env.okRequest)]
                 && l'.baseband == if e.env.okRequest then Linking.BasebandInactive else Linking.RequestConnection
               else outs == [] && l'.baseband == l.baseband
  {
  }

  lemma {:induction false} IdleRun(l: Linking.Link, es: seq<Linking.Event>)
    requires forall i :: 0 <= i < |es| ==> !es[i].Accept?
    requires !l.cntl.valid && !l.intr.valid && l.baseband == Linking.BasebandInactive && Linking.Legal(l, es)
    ensures Histories.AllOuts(l, es) == [] && Linking.StateAt(l, es, |es|).baseband == Linking.BasebandInactive
    decreases |es|
  {
    hide Linking.Step, Linking.Enabled;
    if es != [] {
      IdleStep(l, es[0]);
      Tail(l, es);
      IdleRun(Linking.Step(l, es[0]).0, es[1..]);
    }
  }

  lemma Tail(l: Linking.Link, es: seq<Linking.Event>)
    requires es != [] && Linking.Legal(l, es)
    ensures Linking.Enabled(l, es[0]) && Linking.Legal(Linking.Step(l, es[0]).0, es[1..])
    ensures Linking.StateAt(l, es, |es|) == Linking.StateAt(Linking.Step(l, es[0]).0, es[1..], |es| - 1)
  {
    hide Linking.Step, Linking.Enabled;
    var l' := Linking.Step(l, es[0]).0;
    assert es == [es[0]] + es[1..];
    assert Linking.StateAt(l, es, 0) == l;
    Histories.StatesJoin(l, [es[0]], es[1..], |es| - 1);
    assert Linking.StateAt(l, [es[0]], 0) == l && Linking.StateAt(l, [es[0]], 1) == l';
    forall i | 0 <= i < |es| - 1 ensures Linking.Enabled(Linking.StateAt(l', es[1..], i), es[1..][i]) {
      Histories.StatesJoin(l, [es[0]], es[1..], i);
      assert es[1 + i] == es[1..][i];
    }
  }

  /** From activation to the host's accept: the requests are repeated until one gets through, and after
      that there is none. */
  lemma {:induction false} RequestedUntilSent(l: Linking.Link, es: seq<Linking.Event>)
    requires forall i :: 0 <= i < |es| ==> !es[i].Accept?
    requires Linking.Fresh(l) && Linking.Legal(l, es)
    ensures Histories.AllOuts(l, es) == RequestsIn(es)
    ensures Linking.StateAt(l, es, |es|).baseband ==
            if exists i :: 0 <= i < |es| && RequestSucceeds(es[i]) then Linking.BasebandInactive else Linking.RequestConnection
    decreases |es|
  {
    hide Linking.Step, Linking.Enabled;
    if es != [] {
      IdleStep(l, es[0]);
      Tail(l, es);
      var l' := Linking.Step(l, es[0]).0;
      assert forall i :: 0 < i < |es| ==> es[i] == es[1..][i - 1];
      if RequestSucceeds(es[0]) {
        IdleRun(l', es[1..]);
      } else {
        RequestedUntilSent(l', es[1..]);
      }
    }
  }

  /** So in every run of the system. */
  lemma RequestsInEveryRun(t: Tables, s: Sys, es: seq<Event>, i: nat)
    requires Inv(t, s) && Legal(t, s, es) && Histories.Active(t, s, es, i) && Linking.Fresh(s.ws[i].link)
    requires var ls := Histories.LinkTrace(t, s, es, i); forall k :: 0 <= k < |ls| ==> !ls[k].Accept?
    ensures Histories.LinkOuts(Histories.SentOver(t, s, es, i)) == RequestsIn(Histories.LinkTrace(t, s, es, i))
  {
    hide Sound, Owned, Enabled, Step, Legal, Histories.LinkTrace, Histories.PadTrace, Histories.SentOver,
         Histories.LinkOuts, Histories.PadOuts, Histories.AllOuts, Linking.StateAt, Linking.Legal, RequestsIn;
    Histories.RunHistory(t, s, es, i);
    RequestedUntilSent(s.ws[i].link, Histories.LinkTrace(t, s, es, i));
  }

  // ---------------------------------------------------------------- the host's commands as bytes

  /** The command's fields fit a packet, and its options have their lengths. */
  predicate Sendable(r: Linking.Request) {
    match r
    case ConfigReq(_, _, _, options) => |options| < 0x8000 && L2cap.OptionsWellFormed(options)
    case OtherRequest => false
    case _ => true
  }

  /** A signalling command, field after field, low bytes first. */
  function HostBytes(r: Linking.Request, ident: byte): seq<byte>
    requires Sendable(r)
  {
    match r
    case ConnectRsp(dcid, scid, result, status) =>
      [0x03, ident, 8, 0] + (Le16(dcid) + Le16(scid) + (Le16(result) + Le16(status)))
    case ConfigReq(_, dcid, flags, options) =>
      [0x04, r.ident] + Le16(Word(4 + |options|)) + (Le16(dcid) + Le16(flags) + options)
    case ConfigRsp(scid, result) => [0x05, ident, 6, 0] + (Le16(scid) + Le16(0) + Le16(result))
    case DisconnectReq(_, dcid, scid) => [0x06, r.ident, 4, 0] + (Le16(dcid) + Le16(scid))
  }

  /** The parser of the Wiimote finds that one command, and its fields. */
  lemma HostCommandArrives(r: Linking.Request, ident: byte)
    requires Sendable(r)
    ensures var data := HostBytes(r, ident);
            && L2cap.SignalsWellFormed(data) && |L2cap.Signals(data)| == 1
            && Linking.SignalSized(L2cap.Signals(data)[0]) && Linking.Decode(L2cap.Signals(data)[0]) == r
  {
    hide Linking.Decode, Linking.SignalSized, L2cap.SignalsWellFormed, L2cap.Signals, HostBytes, HostSignal;
    Wire.OneSignal(HostSignal(r, ident));
    BytesOfSignal(r, ident);
    SignalDecodes(r, ident);
  }

  function HostSignal(r: Linking.Request, ident: byte): (s: L2cap.Signal)
    requires Sendable(r)
    ensures L2cap.SignalFits(s)
  {
    match r
    case ConnectRsp(dcid, scid, result, status) =>
      L2cap.Signal(0x03, ident, Le16(dcid) + Le16(scid) + (Le16(result) + Le16(status)))
    case ConfigReq(_, dcid, flags, options) => L2cap.Signal(0x04, r.ident, Le16(dcid) + Le16(flags) + options)
    case ConfigRsp(scid, result) => L2cap.Signal(0x05, ident, Le16(scid) + Le16(0) + Le16(result))
    case DisconnectReq(_, dcid, scid) => L2cap.Signal(0x06, r.ident, Le16(dcid) + Le16(scid))
  }

  lemma BytesOfSignal(r: Linking.Request, ident: byte)
    requires Sendable(r)
    ensures L2cap.SignalBytes(HostSignal(r, ident)) == HostBytes(r, ident)
  {
    if !r.ConfigReq? {
      BytesOfShortSignal(r, ident);
    }
  }

  lemma BytesOfShortSignal(r: Linking.Request, ident: byte)
    requires Sendable(r) && !r.ConfigReq?
    ensures L2cap.SignalBytes(HostSignal(r, ident)) == HostBytes(r, ident)
  {
    hide Le16, Word, L2cap.SignalBytes;
    var s := HostSignal(r, ident);
    Wire.ShortSignal(s.code, s.ident, s.payload);
  }

  lemma SignalDecodes(r: Linking.Request, ident: byte)
    requires Sendable(r)
    ensures Linking.SignalSized(HostSignal(r, ident)) && Linking.Decode(HostSignal(r, ident)) == r
  {
    hide FromLe16, Le16, L2cap.OptionsWellFormed;
    match r
    case ConnectRsp(dcid, scid, result, status) =>
      Wire.TwoWords(dcid, scid, Le16(result) + Le16(status));
      FourWords(dcid, scid, result, status);
    case ConfigReq(_, dcid, flags, options) => Wire.TwoWords(dcid, flags, options);
    case ConfigRsp(scid, result) => FourWords(scid, 0, result, 0);
    case DisconnectReq(_, dcid, scid) =>
      Wire.TwoWords(dcid, scid, []);
      assert Le16(dcid) + Le16(scid) + [] == Le16(dcid) + Le16(scid);
  }

  lemma FourWords(a: word, b: word, c: word, d: word)
    ensures var s := Le16(a) + Le16(b) + (Le16(c) + Le16(d)); |s| == 8 && WordAt(s, 4) == c && WordAt(s, 6) == d
    ensures var s := Le16(a) + Le16(b) + Le16(c); |s| == 6 && WordAt(s, 0) == a && WordAt(s, 4) == c
  {
    hide FromLe16;
    Le16RoundTrip(a);
    Le16RoundTrip(c);
    Le16RoundTrip(d);
  }

  // ---------------------------------------------------------------- what the host's commands do

  function Other(w: Linking.Which): Linking.Which {
    match w case Cntl => Linking.Intr case Intr => Linking.Cntl
  }

  /** The channel is open, and no other has its identifier. */
  predicate Alone(l: Linking.Link, w: Linking.Which) {
    l.Get(w).valid && (l.Get(Other(w)).valid ==> l.Get(Other(w)).localCid != l.Get(w).localCid)
  }

  /** A successful command about the channel with this identifier of the Wiimote. */
  predicate Means(r: Linking.Request, cid: word) {
    match r
    case ConnectRsp(dcid, scid, result, status) => scid == cid && result == 0 && status == 0 && !(dcid == 2 && scid == 0)
    case ConfigReq(_, dcid, flags, options) => dcid == cid && flags == 0 && L2cap.OptionsWellFormed(options)
    case ConfigRsp(scid, result) => scid == cid && result == 0
    case DisconnectReq(_, dcid, _) => dcid == cid
    case OtherRequest => false
  }

  /** Each command changes one field of the channel it means, and is answered in the channel's name. */
  lemma CommandTakesEffect(l: Linking.Link, r: Linking.Request, w: Linking.Which)
    requires Alone(l, w) && Means(r, l.Get(w).localCid)
    ensures Linking.Expected(l, r) && !Linking.Refused(r)
    ensures var (l', outs) := Linking.OnRequest(l, r);
            var (c, c') := (l.Get(w), l'.Get(w));
            && l' == l.Set(w, c')
            && match r
               case ConnectRsp(dcid, _, _, _) => c' == c.(remoteCid := dcid) && outs == []
               case ConfigReq(ident, _, _, options) =>
                 && c' == c.(remoteMtu := L2cap.ParsedMtu(options, 672))
                 && outs == [Linking.ConfigureRsp(c.remoteCid, ident, options)]
               case ConfigRsp(_, _) => c' == c.(state := Linking.Complete) && outs == []
               case DisconnectReq(ident, dcid, scid) =>
                 c' == c.(valid := false) && outs == [Linking.DisconnectRsp(ident, dcid, scid)]
  {
    hide L2cap.OptionsWellFormed, L2cap.ParsedMtu, Linking.ChannelOf, Alone;
    ChannelMeant(l, w);
  }

  lemma ChannelMeant(l: Linking.Link, w: Linking.Which)
    requires Alone(l, w)
    ensures Linking.ChannelOf(l, l.Get(w).localCid) == Some(w)
  {
  }

  /** The packet with the command, on the signalling channel. */
  function HostPacket(handle: word, r: Linking.Request, ident: byte): seq<byte>
    requires Sendable(r)
  {
    ShortCommand(r, ident);
    L2cap.L2capPacket(handle, 0x0001, HostBytes(r, ident))
  }

  lemma ShortCommand(r: Linking.Request, ident: byte)
    requires Sendable(r)
    ensures |HostBytes(r, ident)| < 0x9000
  {
  }

  lemma HostPacketParts(handle: word, r: Linking.Request, ident: byte)
    requires Sendable(r) && handle < 0x1000
    ensures var packet := HostPacket(handle, r, ident);
            && |packet| >= 4 && HciState.ConHandle(WordAt(packet, 0)) == handle
            && PacketWellFormed(packet[4..]) && PacketChannel(packet[4..]) == 0x0001
            && PacketPayload(packet[4..]) == HostBytes(r, ident)
  {
    hide Word, Val, FromLe16, Le16, HciState.ConHandle, L2cap.L2capPacket, HostBytes;
    var packet := HostPacket(handle, r, ident);
    ShortCommand(r, ident);
    L2cap.PacketHeader(handle, 0x0001, HostBytes(r, ident));
    var p := packet[4..];
    assert WordAt(p, 0) == WordAt(packet, 4) && WordAt(p, 2) == WordAt(packet, 6);
    assert p[4..] == packet[8..];
  }

  lemma OneCommandExpected(w: Wiimote, r: Linking.Request, ident: byte)
    requires Sendable(r) && Linking.Expected(w.link, r)
    ensures var data := HostBytes(r, ident);
            && L2cap.SignalsWellFormed(data) && SignalsExpected(w, L2cap.Signals(data))
            && L2cap.Signals(data) == [L2cap.Signals(data)[0]]
            && OnSignals(w, L2cap.Signals(data)).0 == OnSignal(w, L2cap.Signals(data)[0]).0
            && OnSignals(w, L2cap.Signals(data)).1 == OnSignal(w, L2cap.Signals(data)[0]).1
  {
    hide HostBytes, Linking.Expected, Linking.Decode, Linking.SignalSized, OnSignal, L2cap.Signals, L2cap.SignalsWellFormed;
    HostCommandArrives(r, ident);
    var ss := L2cap.Signals(HostBytes(r, ident));
    assert ss == [ss[0]] && ss[1..] == [];
    assert OnSignals(OnSignal(w, ss[0]).0, []) == (OnSignal(w, ss[0]).0, []);
    assert OnSignal(w, ss[0]).1 + [] == OnSignal(w, ss[0]).1;
  }

  /** The host's bytes, sent to a connected Wiimote, are that command to its connection. */
  lemma HostPacketArrives(t: Tables, s: Sys, i: nat, r: Linking.Request, ident: byte)
    requires Inv(t, s) && i < |s.ws| && s.ws[i].Connected() && Sendable(r) && Linking.Expected(s.ws[i].link, r)
    requires s.ws[i].link.conHandle < 0x1000 && FakeFor(s.ws, s.ws[i].link.conHandle) == Some(i)
    ensures var e := AclOut(HostPacket(s.ws[i].link.conHandle, r, ident));
            && Enabled(t, s, e) && Histories.LinkEvents(t, s, e, i) == [Linking.Signalled(r)]
            && Histories.PadEvents(t, s, e, i) == []
            && i < |Step(t, s, e).ws|
            && (Linking.Refused(r) ==>
                  && !Step(t, s, e).ws[i].active
                  && DisconnectionComplete(s.ws[i].link.conHandle) in Histories.Sent(t, s, e, i))
  {
    hide Sound, Owned, HostBytes, HostPacket, WordAt, Val, L2cap.SignalsWellFormed, SignalsExpected, L2cap.Signals,
         Linking.Expected, Linking.Decode, Linking.SignalSized, OnSignals, HidWellFormed, DecodeHid, CarryOut;
    var handle := s.ws[i].link.conHandle;
    HostPacketParts(handle, r, ident);
    OneCommandExpected(s.ws[i], r, ident);
    HostCommandArrives(r, ident);
    var p := HostPacket(handle, r, ident)[4..];
    var counted := s.ws[i].(completed := (s.ws[i].completed + 1) % COUNTER);
    OneCommandExpected(counted, r, ident);
    assert Histories.SignalEvents(L2cap.Signals(PacketPayload(p))) == [Linking.Signalled(r)];
  }

  /** A connection response with an error, or, from stacks that put the reason into the wrong field, with
      a channel 0x0002 for no channel at all, ends the connection and is announced. */
  lemma HostRefuses(t: Tables, s: Sys, i: nat, r: Linking.Request, ident: byte)
    requires Inv(t, s) && i < |s.ws| && s.ws[i].Connected()
    requires r.ConnectRsp? && (r.result != 0 || (r.dcid == 0x0002 && r.scid == 0))
    requires s.ws[i].link.conHandle < 0x1000 && FakeFor(s.ws, s.ws[i].link.conHandle) == Some(i)
    ensures var e := AclOut(HostPacket(s.ws[i].link.conHandle, r, ident));
            && Enabled(t, s, e) && i < |Step(t, s, e).ws| && !Step(t, s, e).ws[i].active
            && DisconnectionComplete(s.ws[i].link.conHandle) in Histories.Sent(t, s, e, i)
  {
    hide Inv, Enabled, Step, Histories.Sent, HostPacket, FakeFor, Histories.LinkEvents, Histories.PadEvents;
    HostPacketArrives(t, s, i, r, ident);
  }

  /** In the system, a successful command of the host about an open channel changes exactly that field
      of that channel, and makes the Wiimote send exactly that answer. */
  lemma HostCommandTakesEffect(t: Tables, s: Sys, i: nat, r: Linking.Request, ident: byte, w: Linking.Which)
    requires Inv(t, s) && i < |s.ws| && s.ws[i].Connected() && Sendable(r)
    requires s.ws[i].link.conHandle < 0x1000 && FakeFor(s.ws, s.ws[i].link.conHandle) == Some(i)
    requires Alone(s.ws[i].link, w) && Means(r, s.ws[i].link.Get(w).localCid)
    ensures Linking.Expected(s.ws[i].link, r)
    ensures var e := AclOut(HostPacket(s.ws[i].link.conHandle, r, ident));
            && Enabled(t, s, e) && i < |Step(t, s, e).ws|
            && (Step(t, s, e).ws[i].link, Histories.LinkOuts(Histories.Sent(t, s, e, i))) ==
               Linking.OnRequest(s.ws[i].link, r)
            && Step(t, s, e).ws[i].pad == s.ws[i].pad
  {
    hide Inv, HostPacket, Linking.OnRequest, Linking.Expected, Enabled, Step, Histories.Sent, Histories.LinkEvents,
         Histories.PadEvents, Histories.LinkOuts, Histories.PadOuts, Alone, Means, FakeFor;
    CommandTakesEffect(s.ws[i].link, r, w);
    HostPacketArrives(t, s, i, r, ident);
    var e := AclOut(HostPacket(s.ws[i].link.conHandle, r, ident));
    StepIsOne(t, s, e, i, r);
  }

  lemma StepIsOne(t: Tables, s: Sys, e: Event, i: nat, r: Linking.Request)
    requires Inv(t, s) && Enabled(t, s, e) && i < |s.ws| && s.ws[i].active && Linking.Expected(s.ws[i].link, r)
    requires Histories.LinkEvents(t, s, e, i) == [Linking.Signalled(r)] && Histories.PadEvents(t, s, e, i) == []
    ensures i < |Step(t, s, e).ws|
    ensures (Step(t, s, e).ws[i].link, Histories.LinkOuts(Histories.Sent(t, s, e, i))) ==
            Linking.OnRequest(s.ws[i].link, r)
    ensures Step(t, s, e).ws[i].pad == s.ws[i].pad
  {
    hide Inv, Linking.OnRequest, Linking.Expected, Enabled, Step, Histories.Sent, Histories.LinkEvents,
         Histories.PadEvents, Histories.LinkOuts, Histories.PadOuts;
    Histories.StepHistory(t, s, e, i);
    Histories.OneStep(s.ws[i].link, Linking.Signalled(r));
  }

  // ---------------------------------------------------------------- what the ticks send

  /** Both sides have accepted and configured the channel. */
  predicate Ready(c: Linking.Channel) {
    c.valid && c.remoteCid != 0 && c.remoteMtu != 0 && c.state == Linking.Complete
  }

  /** While linking, a tick opens the control channel (PSM 0x11) if there is none, then, once that is
      ready, the interrupt channel (PSM 0x13), and ends linking exactly when both are ready. */
  lemma TicksOpen(l: Linking.Link, env: Linking.TickEnv, cid: word)
    requires l.baseband == Linking.BasebandComplete && l.acl == Linking.AclLinking
    ensures var (l', outs) := Linking.OnTick(l, env);
            && (Linking.ConnectReq(Linking.Cntl, cid) in outs <==> !l.cntl.valid && cid == env.cid)
            && (Linking.ConnectReq(Linking.Intr, cid) in outs <==> Ready(l.cntl) && !l.intr.valid && cid == env.cid)
            && (Linking.Resume in outs <==> Ready(l.cntl) && Ready(l.intr))
            && (l'.acl == Linking.AclInactive <==> Ready(l.cntl) && Ready(l.intr))
            && (!l.cntl.valid ==> l'.cntl == Linking.Channel(true, Linking.Inactive, 0x11, env.cid, 0, 0))
            && (Ready(l.cntl) && !l.intr.valid ==> l'.intr == Linking.Channel(true, Linking.Inactive, 0x13, env.cid, 0, 0))
  {
  }

  /** In the same tick each channel that the host has accepted, and that is not yet configured, is
      configured under the host's identifier; if the injection fails, the next tick tries again. */
  lemma TicksConfigure(l: Linking.Link, env: Linking.TickEnv, w: Linking.Which, cid: word, ok: bool)
    requires l.baseband == Linking.BasebandComplete && l.acl == Linking.AclLinking
    ensures var (l', outs) := Linking.OnTick(l, env);
            var (c, injected) := (l.Get(w), if w == Linking.Cntl then env.okCntl else env.okIntr);
            && (Linking.ConfigureReq(w, cid, ok) in outs <==>
                  c.valid && c.remoteCid != 0 && c.state == Linking.Inactive && cid == c.remoteCid && ok == injected)
            && (c.valid ==> l'.Get(w) == if Linking.ConfigureReq(w, c.remoteCid, true) in outs
                                         then c.(state := Linking.ConfigPend) else c)
  {
    hide Linking.ConfigureBoth;
    var c := l.Get(w).remoteCid;
    BothConfigure(l, env, w, cid, ok);
    BothConfigure(l, env, w, c, true);
    var first := l.(cntl := Linking.Setup(0x11, env.cid));
    BothConfigure(first, env, w, cid, ok);
    BothConfigure(first, env, w, c, true);
    var second := l.(intr := Linking.Setup(0x13, env.cid));
    BothConfigure(second, env, w, cid, ok);
    BothConfigure(second, env, w, c, true);
  }

  lemma BothConfigure(l: Linking.Link, env: Linking.TickEnv, w: Linking.Which, cid: word, ok: bool)
    ensures var (l', outs) := Linking.ConfigureBoth(l, env);
            var (c, injected) := (l.Get(w), if w == Linking.Cntl then env.okCntl else env.okIntr);
            && (Linking.ConfigureReq(w, cid, ok) in outs <==>
                  c.valid && c.remoteCid != 0 && c.state == Linking.Inactive && cid == c.remoteCid && ok == injected)
            && l'.Get(w) == if Linking.ConfigureReq(w, c.remoteCid, true) in outs then c.(state := Linking.ConfigPend) else c
  {
    hide Linking.ConfigureChannel;
    OneConfigures(l, Linking.Cntl, env.okCntl, w, cid, ok);
    var l1 := Linking.ConfigureChannel(l, Linking.Cntl, env.okCntl).0;
    OneConfigures(l1, Linking.Intr, env.okIntr, w, cid, ok);
    OneConfigures(l, Linking.Cntl, env.okCntl, w, l.Get(w).remoteCid, true);
    OneConfigures(l1, Linking.Intr, env.okIntr, w, l.Get(w).remoteCid, true);
  }

  lemma OneConfigures(l: Linking.Link, v: Linking.Which, injected: bool, w: Linking.Which, cid: word, ok: bool)
    ensures var (l', outs) := Linking.ConfigureChannel(l, v, injected);
            var c := l.Get(w);
            && (Linking.ConfigureReq(w, cid, ok) in outs <==>
                  v == w && c.valid && c.remoteCid != 0 && c.state == Linking.Inactive && cid == c.remoteCid && ok == injected)
            && l'.Get(w) == if Linking.ConfigureReq(w, c.remoteCid, true) in outs then c.(state := Linking.ConfigPend) else c
  {
  }

  // ---------------------------------------------------------------- the end

  lemma SignalAnnounces(w: Wiimote, s: L2cap.Signal, h: word)
    requires Linking.SignalSized(s) && Linking.Expected(w.link, Linking.Decode(s))
    ensures var (w', es) := OnSignal(w, s);
            && (DisconnectionComplete(h) in es ==>
                  !w'.active && w.link.baseband == Linking.BasebandComplete && h == w.link.conHandle)
            && (w.Connected() && !w'.active ==> DisconnectionComplete(w.link.conHandle) in es)
            && w'.link.baseband == w.link.baseband && w'.link.conHandle == w.link.conHandle
  {
    hide Linking.Decode, Linking.OnRequest, Linking.Expected, Linking.SignalSized;
    SignalFrame(w, s);
  }

  lemma {:induction false} SignalsAnnounce(w: Wiimote, ss: seq<L2cap.Signal>, h: word)
    requires SignalsExpected(w, ss)
    ensures var (w', es) := OnSignals(w, ss);
            && (DisconnectionComplete(h) in es ==>
                  !w'.active && w.link.baseband == Linking.BasebandComplete && h == w.link.conHandle)
            && (w.Connected() && !w'.active ==> DisconnectionComplete(w.link.conHandle) in es)
    decreases |ss|
  {
    hide OnSignal, Linking.Expected, Linking.Decode, Linking.SignalSized;
    if ss != [] {
      var w1 := OnSignal(w, ss[0]).0;
      SignalAnnounces(w, ss[0], h);
      SignalAnnounces(w, ss[0], w.link.conHandle);
      SignalsFrame(w1, ss[1..]);
      SignalsAnnounce(w1, ss[1..], h);
      SignalsAnnounce(w1, ss[1..], w.link.conHandle);
    }
  }

  lemma PacketAnnounces(t: Tables, w: Wiimote, p: seq<byte>, h: word)
    requires t.Valid() && PacketExpected(t, w, p) && w.Connected()
    ensures var (w', es) := OnPacket(t, w, p);
            && (DisconnectionComplete(h) in es ==> !w'.active && h == w.link.conHandle)
            && (!w'.active ==> DisconnectionComplete(w.link.conHandle) in es)
  {
    hide OnSignals, SignalsExpected, Pad.Hid, DecodeHid, HidWellFormed, WordAt, Val;
    var counted := w.(completed := (w.completed + 1) % COUNTER);
    if PacketChannel(p) == L2cap.SIGNAL_CID {
      SignalsIgnoreCounter(w, counted, L2cap.Signals(PacketPayload(p)));
      SignalsAnnounce(counted, L2cap.Signals(PacketPayload(p)), h);
      SignalsAnnounce(counted, L2cap.Signals(PacketPayload(p)), w.link.conHandle);
    }
  }

  /** In every step of the system: a connected Wiimote that goes away is announced to the host under
      its own handle, unless the host resets everything, and nothing else is announced. */
  lemma EndIsAnnounced(t: Tables, s: Sys, e: Event, i: nat, h: word)
    requires Inv(t, s) && Enabled(t, s, e) && i < |s.ws|
    ensures i < |Step(t, s, e).ws|
    ensures DisconnectionComplete(h) in Histories.Sent(t, s, e, i) ==>
              !Step(t, s, e).ws[i].active
              && s.ws[i].link.baseband == Linking.BasebandComplete && h == s.ws[i].link.conHandle
    ensures s.ws[i].Connected() && !Step(t, s, e).ws[i].active && !IsReset(e) ==>
              DisconnectionComplete(s.ws[i].link.conHandle) in Histories.Sent(t, s, e, i)
  {
    hide Sound, Owned, WordAt, OnPacket, PacketExpected, FakeFor, CarryOut, OnTick, TickExpected, AfterAssign,
         HciState.CommandState, HciState.CommandWellFormed, HciState.EventExpected, HciState.CommandExpected;
    match e
    case Timer(_, _, _) => TimerAnnouncesNothing(t, s, e, i, h);
    case AclOut(packet) =>
      if Receiver(s.ws, packet) == Some(i) {
        PacketAnnounces(t, s.ws[i], packet[4..], h);
      }
    case Command(data) => CommandAnnounces(s, data, i);
    case _ =>
  }

  /** HCI_Reset */
  predicate IsReset(e: Event) {
    e.Command? && |e.command| >= 2 && e.command[0] == 0x03 && e.command[1] == 0x0C
  }

  lemma TimerAnnouncesNothing(t: Tables, s: Sys, e: Event, i: nat, h: word)
    requires Inv(t, s) && e.Timer? && Enabled(t, s, e) && i < |s.ws|
    ensures i < |Step(t, s, e).ws| && (s.ws[i].active ==> Step(t, s, e).ws[i].active)
    ensures DisconnectionComplete(h) !in Histories.Sent(t, s, e, i)
  {
    hide Sound, Owned, OnTick, TickExpected, AfterAssign;
    TimerWiimotes(t, s, e, i);
    var w := AfterAssign(s, e.calibration).0[i];
    if w.active {
      TickAnnouncesNothing(t, w, Histories.EnvOf(s, e, i), e.ticks[i].input, h);
    }
  }

  lemma TickAnnouncesNothing(t: Tables, w: Wiimote, env: Linking.TickEnv, input: Pad.Input, h: word)
    requires t.Valid() && TickExpected(t, w, input)
    ensures DisconnectionComplete(h) !in OnTick(t, w, env, input).1
  {
    hide Pad.Tick, Pad.TickReadable, Linking.OnTick;
  }

  lemma CommandAnnounces(s: Sys, data: seq<byte>, i: nat)
    requires HciState.CommandWellFormed(data) && i < |s.ws|
    ensures i < |HostCommand(s, data).ws|
    ensures s.ws[i].active && !HostCommand(s, data).ws[i].active ==>
              (Answering(s, data) == Some(i) && WordAt(data, 0) == HciState.CMD_DISCONNECT) || IsReset(Command(data))
    ensures Answering(s, data) == Some(i) && WordAt(data, 0) == HciState.CMD_DISCONNECT ==>
              !HostCommand(s, data).ws[i].active
  {
    hide HciState.CommandState, CarryOut, WordAt, FakeFor, FakeAt;
    ResetWs(s.ws, s.devs, 0);
    ResetOpcode(data);
  }

  lemma ResetOpcode(data: seq<byte>)
    requires |data| >= 2
    ensures WordAt(data, 0) == HciState.CMD_RESET <==> data[0] == 0x03 && data[1] == 0x0C
  {
    FromLe16RoundTrip(data[0], data[1]);
  }

  /** Under a live handle of its own, the host's disconnect command ends a fake Wiimote's connection. */
  lemma HostDisconnects(t: Tables, s: Sys, i: nat, reason: byte)
    requires Inv(t, s) && i < |s.ws| && s.ws[i].Connected() && FakeFor(s.ws, s.ws[i].link.conHandle) == Some(i)
    ensures var h := s.ws[i].link.conHandle;
            var e := Command([0x06, 0x04, 3] + Le16(h) + [reason]);
            && Enabled(t, s, e) && Step(t, s, e) == DisconnectOne(s, i)
            && DisconnectionComplete(h) in Histories.Sent(t, s, e, i)
            && Step(t, s, e).hci == s.hci
            && !Step(t, s, e).ws[i].active
            && forall j :: 0 <= j < |s.ws| && j != i ==> Step(t, s, e).ws[j] == s.ws[j]
  {
    hide Inv, Le16, FromLe16, FakeFor, CarryOut, HciState.HANDLE_COMMANDS, HciState.ADDRESS_COMMANDS, FAKE_COMMANDS;
    var h := s.ws[i].link.conHandle;
    var data := [0x06, 0x04, 3] + Le16(h) + [reason];
    Le16RoundTrip(h);
    assert data[3] == Le16(h)[0] && data[4] == Le16(h)[1];
    DisconnectOpcode();
    assert WordAt(data, 0) == HciState.CMD_DISCONNECT && WordAt(data, 3) == h;
    OpcodesApart();
    FakeCommandsCarryHandles();
    assert Answering(s, data) == Some(i);
  }

  lemma DisconnectOpcode()
    ensures FromLe16(0x06, 0x04) == HciState.CMD_DISCONNECT != HciState.CMD_READ_STORED_LINK_KEY
    ensures HciState.CMD_DISCONNECT != HciState.CMD_REJECT_CON && HciState.CMD_DISCONNECT != HciState.CMD_ACCEPT_CON
    ensures HciState.CMD_DISCONNECT != HciState.CMD_WRITE_SCAN_ENABLE
  {
  }

  // ---------------------------------------------------------------- the host's answer to the request

  /** The address of fake Wiimote i, as it is sent. */
  function Address(i: nat): seq<byte>
    requires i < 2
  {
    [0xFE, 0xED, 0xBA, 0xDF, 0x00, if i == 0 then 0xD0 else 0xD1]
  }

  lemma AnswerOpcodes()
    ensures FromLe16(0x09, 0x04) == HciState.CMD_ACCEPT_CON != HciState.CMD_REJECT_CON == FromLe16(0x0A, 0x04)
    ensures HciState.CMD_ACCEPT_CON in HciState.ADDRESS_COMMANDS && HciState.CMD_REJECT_CON in HciState.ADDRESS_COMMANDS
    ensures HciState.CMD_READ_STORED_LINK_KEY !in {HciState.CMD_ACCEPT_CON, HciState.CMD_REJECT_CON}
  {
  }

  lemma AddressFound(i: nat)
    requires i < 2
    ensures FakeAt(Address(i)) == Some(i)
  {
    assert FAKE_ADDRESSES[0] == Address(0) && FAKE_ADDRESSES[1] == Address(1);
    assert Address(0)[5] != Address(1)[5];
    assert FakeAt(Address(1)) == FakeAt(Address(1), 1);
  }

  /** Accepting or rejecting a connection, as bytes: the Wiimote of that address is meant. */
  lemma AnswersArrive(i: nat, last: byte)
    requires i < 2
    ensures var data := [0x09, 0x04, 7] + Address(i) + [last]; HciState.CommandWellFormed(data) && EventOf(data) == Accept(i)
    ensures var data := [0x0A, 0x04, 7] + Address(i) + [last]; HciState.CommandWellFormed(data) && EventOf(data) == Reject(i)
  {
    AnswerArrives(0x09, i, last);
    AnswerArrives(0x0A, i, last);
  }

  lemma AnswerArrives(code: byte, i: nat, last: byte)
    requires i < 2 && (code == 0x09 || code == 0x0A)
    ensures var data := [code, 0x04, 7] + Address(i) + [last];
            HciState.CommandWellFormed(data) && EventOf(data) == if code == 0x09 then Accept(i) else Reject(i)
  {
    hide FromLe16, FakeAt, HciState.HANDLE_COMMANDS, HciState.ADDRESS_COMMANDS, Address;
    AnswerOpcodes();
    OpcodesApart();
    AddressFound(i);
    AddressLength(i);
    var data := [code, 0x04, 7] + Address(i) + [last];
    assert data[3..9] == Address(i);
  }

  lemma AddressLength(i: nat)
    requires i < 2
    ensures |Address(i)| == 6
  {
  }

  /** An accepted Wiimote is connected under the handle that was next, and starts to link. */
  lemma AcceptTakesEffect(t: Tables, s: Sys, i: nat)
    requires Inv(t, s) && i < |s.ws| && s.ws[i].active && s.ws[i].link.baseband == Linking.BasebandInactive
    ensures Enabled(t, s, Accept(i))
    ensures var w := s.ws[i];
            var v := w.(link := w.link.(conHandle := s.hci.last, baseband := Linking.BasebandComplete, acl := Linking.AclLinking));
            && v.Connected()
            && Step(t, s, Accept(i)) == s.(hci := s.hci.(last := HciState.NextHandle(s.hci.last)), ws := s.ws[i := v])
  {
    hide Owned, Sound;
  }

  /** A rejected one is inactive, and nothing is announced. */
  lemma RejectTakesEffect(t: Tables, s: Sys, i: nat)
    requires Inv(t, s) && i < |s.ws| && s.ws[i].active && s.ws[i].link.baseband == Linking.BasebandInactive
    ensures Enabled(t, s, Reject(i))
    ensures var s' := Step(t, s, Reject(i));
            && s'.ws == s.ws[i := s.ws[i].(active := false)] && s'.hci == s.hci
            && forall h :: DisconnectionComplete(h) !in Histories.Sent(t, s, Reject(i), i)
  {
    hide Owned, Sound, CarryOut;
  }

  // ---------------------------------------------------------------- the user, the timer, and a reset

  /** A gamepad that is plugged in waits, for its first Wiimote without delay, in a slot that was empty;
      it is ignored exactly if there is none. */
  lemma PluggedInWaits(t: Tables, s: Sys, d: nat)
    requires t.Valid()
    ensures var s' := Step(t, s, GamepadAdded(d));
            && s' == s.(devs := s'.devs) && |s'.devs| == |s.devs|
            && (if exists k :: 0 <= k < |s.devs| && s.devs[k].device.None?
                then exists k :: 0 <= k < |s.devs| && s.devs[k].device.None? && s'.devs == s.devs[k := InputDevices.Slot(Some(d), None, 0)]
                else s'.devs == s.devs)
  {
  }

  /** A gamepad that is pulled out leaves its slot empty, and the Wiimote it was given becomes inactive;
      nobody else is affected. */
  lemma PulledOutEnds(t: Tables, s: Sys, d: nat, k: nat)
    requires Inv(t, s) && k < |s.devs| && s.devs[k].device == Some(d)
    requires forall j :: 0 <= j < k ==> s.devs[j].device != Some(d)
    ensures var s' := Step(t, s, GamepadRemoved(d));
            && s'.hci == s.hci && s'.devs == s.devs[k := s.devs[k].(device := None)] && |s'.ws| == |s.ws|
            && forall i :: 0 <= i < |s.ws| ==>
                 if s.devs[k].wiimote == Some(i)
                 then !s'.ws[i].active
                      && (s.ws[i].Connected() ==>
                            DisconnectionComplete(s.ws[i].link.conHandle) in Histories.Sent(t, s, GamepadRemoved(d), i))
                 else s'.ws[i] == s.ws[i]
  {
    hide Owned, Sound;
    assert InputDevices.FindDevice(s.devs, d) == Some(k) by { FindsFirst(s.devs, d, k, 0); }
    OwnerExists(s, k);
  }

  lemma {:induction false} FindsFirst(devs: seq<InputDevices.Slot>, d: nat, k: nat, i: nat)
    requires i <= k < |devs| && devs[k].device == Some(d) && forall j :: 0 <= j < k ==> devs[j].device != Some(d)
    ensures InputDevices.FindDevice(devs, d, i) == Some(k)
    decreases k - i
  {
    if i < k {
      FindsFirst(devs, d, k, i + 1);
    }
  }

  lemma OwnerExists(s: Sys, k: nat)
    requires Owned(s.ws, s.devs) && k < |s.devs| && s.devs[k].device.Some?
    ensures s.devs[k].wiimote.Some? ==> s.devs[k].wiimote.value < |s.ws|
  {
  }

  /** While page scan is off the timer gives no gamepad to anybody; it only counts down. */
  lemma NoScanNoAssignment(t: Tables, s: Sys, e: Event, i: nat)
    requires Inv(t, s) && e.Timer? && Enabled(t, s, e) && !CanRequest(s.hci) && i < |s.ws|
    ensures var s' := Step(t, s, e);
            && i < |s'.ws| && s'.ws[i].active == s.ws[i].active && s'.ws[i].inputDevice == s.ws[i].inputDevice
            && |s'.devs| == |s.devs|
            && forall k :: 0 <= k < |s.devs| ==>
                 && s'.devs[k].wiimote == s.devs[k].wiimote
                 && s'.devs[k].delay == if s.devs[k].device.Some? && s.devs[k].wiimote.None? && s.devs[k].delay > 0
                                        then s.devs[k].delay - 1 else s.devs[k].delay
  {
    hide Owned, Sound, TickAll;
    TimerWiimotes(t, s, e, i);
  }

  /** A reset of the host ends everything: no Wiimote is active, no handle is mapped, page scan is off,
      and every gamepad that had a Wiimote waits the full delay. */
  lemma ResetEndsAll(t: Tables, s: Sys, e: Event)
    requires Inv(t, s) && IsReset(e) && Enabled(t, s, e)
    ensures var s' := Step(t, s, e);
            && |s'.ws| == |s.ws| && (forall i :: 0 <= i < |s.ws| ==> s'.ws[i] == s.ws[i].(active := false))
            && s'.hci.scanEnable == 0 && s'.hci.last == 0
            && (forall k :: 0 <= k < |s'.hci.table| ==> !s'.hci.table[k].valid)
            && |s'.devs| == |s.devs|
            && forall k :: 0 <= k < |s.devs| && s.devs[k].device.Some? ==>
                 s'.devs[k] == if s.devs[k].wiimote.Some? then s.devs[k].(wiimote := None, delay := 200) else s.devs[k]
  {
    hide Sound, Owned, WordAt, HciState.HANDLE_COMMANDS, HciState.ADDRESS_COMMANDS, FAKE_COMMANDS, FakeFor, FakeAt,
         ResetFrom;
    ResetOpcode(e.command);
    OpcodesApart();
    OwnedReset(s.ws, s.devs, 0);
    var s' := Step(t, s, e);
    forall k | 0 <= k < |s.devs| && s.devs[k].device.Some?
      ensures s'.devs[k] == if s.devs[k].wiimote.Some? then s.devs[k].(wiimote := None, delay := 200) else s.devs[k]
    {
      ResetReleases(s.ws, s.devs, 0, k);
      NothingHeld(s'.ws, s'.devs, k);
      if s.devs[k].wiimote.None? {
        ResetKeepsFree(s.ws, s.devs, 0, k);
      }
    }
  }

  lemma NothingHeld(ws: seq<Wiimote>, devs: seq<InputDevices.Slot>, k: nat)
    requires Owned(ws, devs) && k < |devs| && devs[k].device.Some? && forall i :: 0 <= i < |ws| ==> !ws[i].active
    ensures devs[k].wiimote.None?
  {
  }

  lemma {:induction false} ResetKeepsFree(ws: seq<Wiimote>, devs: seq<InputDevices.Slot>, i: nat, k: nat)
    requires Owned(ws, devs) && i <= |ws| && k < |devs| && devs[k].wiimote.None?
    ensures ResetFrom(ws, devs, i).1[k] == devs[k]
    decreases |ws| - i
  {
    if i < |ws| {
      if ws[i].active {
        OwnedReleased(ws, devs, i, ws[i].(active := false));
        ResetKeepsFree(ws[i := ws[i].(active := false)],
                       InputDevices.Released(devs, ws[i].inputDevice.value), i + 1, k);
      } else {
        ResetKeepsFree(ws, devs, i + 1, k);
      }
    }
  }
}
