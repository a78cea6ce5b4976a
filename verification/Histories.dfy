/**
 * One Wiimote inside the whole system. While it stays active, what happens to it in a run of the
 * system is a run of its connection (module Linking) and a run of its pad (module Pad), with the
 * states and the outputs of those runs. So what is proved there about order, silence and reading
 * holds in every run of the system.
 */
module Histories {
  import opened Bytes
  import opened FakeWiimote
  import opened Manager
  import opened Crypto
  import ChannelIds
  import HciState
  import InputDevices
  import L2cap
  import Linking
  import Pad
  import Registers
  import Reports

  // ---------------------------------------------------------------- runs of the connection, joined

  lemma {:induction false} StatesJoin(l: Linking.Link, a: seq<Linking.Event>, b: seq<Linking.Event>, i: nat)
    requires i <= |b|
    ensures Linking.StateAt(l, a + b, |a| + i) == Linking.StateAt(Linking.StateAt(l, a, |a|), b, i)
    decreases i
  {
    hide Linking.Step;
    if i > 0 {
      StatesJoin(l, a, b, i - 1);
    } else {
      StatesOfPrefix(l, a, b, |a|);
    }
  }

  lemma {:induction false} StatesOfPrefix(l: Linking.Link, a: seq<Linking.Event>, b: seq<Linking.Event>, i: nat)
    requires i <= |a|
    ensures Linking.StateAt(l, a + b, i) == Linking.StateAt(l, a, i)
    decreases i
  {
    hide Linking.Step;
    if i > 0 {
      StatesOfPrefix(l, a, b, i - 1);
    }
  }

  lemma LegalJoin(l: Linking.Link, a: seq<Linking.Event>, b: seq<Linking.Event>)
    requires Linking.Legal(l, a) && Linking.Legal(Linking.StateAt(l, a, |a|), b)
    ensures Linking.Legal(l, a + b)
  {
    hide Linking.Step, Linking.Enabled;
    forall i | 0 <= i < |a + b| ensures Linking.Enabled(Linking.StateAt(l, a + b, i), (a + b)[i]) {
      if i < |a| {
        StatesOfPrefix(l, a, b, i);
      } else {
        StatesJoin(l, a, b, i - |a|);
      }
    }
  }

  lemma OneStep(l: Linking.Link, e: Linking.Event)
    requires Linking.Enabled(l, e)
    ensures Linking.Legal(l, [e]) && Linking.StateAt(l, [e], 1) == Linking.Step(l, e).0
    ensures AllOuts(l, [e]) == Linking.Step(l, e).1
  {
    hide Linking.Step, Linking.Enabled;
    assert Linking.StateAt(l, [e], 0) == l;
    assert [e][1..] == [];
    assert AllOuts(Linking.Step(l, e).0, []) == [];
    assert Linking.Step(l, e).1 + [] == Linking.Step(l, e).1;
  }

  /** Everything the connection sends in a run, in order. */
  function AllOuts(l: Linking.Link, es: seq<Linking.Event>): seq<Linking.Out>
    decreases |es|
  {
    if es == [] then [] else Linking.Step(l, es[0]).1 + AllOuts(Linking.Step(l, es[0]).0, es[1..])
  }

  lemma {:induction false} OutsJoin(l: Linking.Link, a: seq<Linking.Event>, b: seq<Linking.Event>)
    ensures AllOuts(l, a + b) == AllOuts(l, a) + AllOuts(Linking.StateAt(l, a, |a|), b)
    decreases |a|
  {
    hide Linking.Step;
    if a == [] {
      assert a + b == b;
    } else {
      var l' := Linking.Step(l, a[0]).0;
      assert (a + b)[1..] == a[1..] + b && a == [a[0]] + a[1..];
      OutsJoin(l', a[1..], b);
      StatesJoin(l, [a[0]], a[1..], |a| - 1);
      assert Linking.StateAt(l, [a[0]], 0) == l && Linking.StateAt(l, [a[0]], 1) == l';
    }
  }

  lemma NoStep(l: Linking.Link)
    ensures Linking.Legal(l, []) && Linking.StateAt(l, [], 0) == l && AllOuts(l, []) == []
  {
  }

  // ---------------------------------------------------------------- runs of the pad, joined

  lemma {:induction false} PadJoin(t: Tables, p: Pad.Pad, a: seq<Pad.Event>, b: seq<Pad.Event>)
    requires t.Valid() && Pad.Legal(t, p, a) && Pad.Legal(t, Pad.After(t, p, a), b)
    ensures Pad.Legal(t, p, a + b) && Pad.After(t, p, a + b) == Pad.After(t, Pad.After(t, p, a), b)
    ensures Pad.Outs(t, p, a + b) == Pad.Outs(t, p, a) + Pad.Outs(t, Pad.After(t, p, a), b)
    decreases |a|
  {
    hide Pad.Step, Pad.Enabled;
    if a == [] {
      assert a + b == b;
    } else {
      assert (a + b)[1..] == a[1..] + b;
      PadJoin(t, Pad.Step(t, p, a[0]).0, a[1..], b);
    }
  }

  lemma OnePadStep(t: Tables, p: Pad.Pad, e: Pad.Event)
    requires t.Valid() && Pad.Enabled(t, p, e)
    ensures Pad.Legal(t, p, [e]) && Pad.After(t, p, [e]) == Pad.Step(t, p, e).0
    ensures Pad.Outs(t, p, [e]) == Pad.Step(t, p, e).1
  {
    hide Pad.Step, Pad.Enabled;
    assert [e][1..] == [];
    assert Pad.Outs(t, Pad.Step(t, p, e).0, []) == [];
    assert Pad.Step(t, p, e).1 + [] == Pad.Step(t, p, e).1;
    assert Pad.After(t, Pad.Step(t, p, e).0, []) == Pad.Step(t, p, e).0;
  }

  // ---------------------------------------------------------------- one Wiimote's outputs

  /** The signalling commands and connection requests among a Wiimote's effects. */
  function LinkOuts(es: seq<Effect>): seq<Linking.Out> {
    if es == [] then [] else (if es[0].LinkSent? then [es[0].out] else []) + LinkOuts(es[1..])
  }

  /** The input reports among them. */
  function PadOuts(es: seq<Effect>): seq<Pad.Out> {
    if es == [] then [] else (if es[0].ReportSent? then [es[0].report] else []) + PadOuts(es[1..])
  }

  lemma EffectsJoin(a: seq<Effect>, b: seq<Effect>)
    ensures LinkOuts(a + b) == LinkOuts(a) + LinkOuts(b)
    ensures PadOuts(a + b) == PadOuts(a) + PadOuts(b)
  {
    LinkOutsJoin(a, b);
    PadOutsJoin(a, b);
  }

  lemma {:induction false} LinkOutsJoin(a: seq<Effect>, b: seq<Effect>)
    ensures LinkOuts(a + b) == LinkOuts(a) + LinkOuts(b)
  {
    if a == [] {
      assert a + b == b;
    } else {
      assert (a + b)[1..] == a[1..] + b;
      LinkOutsJoin(a[1..], b);
      var first := if a[0].LinkSent? then [a[0].out] else [];
      assert first + (LinkOuts(a[1..]) + LinkOuts(b)) == (first + LinkOuts(a[1..])) + LinkOuts(b);
    }
  }

  lemma {:induction false} PadOutsJoin(a: seq<Effect>, b: seq<Effect>)
    ensures PadOuts(a + b) == PadOuts(a) + PadOuts(b)
  {
    if a == [] {
      assert a + b == b;
    } else {
      assert (a + b)[1..] == a[1..] + b;
      PadOutsJoin(a[1..], b);
      var first := if a[0].ReportSent? then [a[0].report] else [];
      assert first + (PadOuts(a[1..]) + PadOuts(b)) == (first + PadOuts(a[1..])) + PadOuts(b);
    }
  }

  lemma {:induction false} LinkEffectsAreOuts(outs: seq<Linking.Out>)
    ensures LinkOuts(LinkEffects(outs)) == outs && PadOuts(LinkEffects(outs)) == []
  {
    if outs != [] {
      assert LinkEffects(outs)[1..] == LinkEffects(outs[1..]);
      LinkEffectsAreOuts(outs[1..]);
    }
  }

  lemma {:induction false} PadEffectsAreOuts(outs: seq<Pad.Out>)
    ensures PadOuts(PadEffects(outs)) == outs && LinkOuts(PadEffects(outs)) == []
  {
    if outs != [] {
      assert PadEffects(outs)[1..] == PadEffects(outs[1..]);
      PadEffectsAreOuts(outs[1..]);
    }
  }

  lemma DisconnectSendsNothing(w: Wiimote)
    ensures LinkOuts(Disconnect(w).1) == [] && PadOuts(Disconnect(w).1) == []
  {
    var released := if w.inputDevice.Some? then [ReleaseDevice(w.inputDevice.value)] else [];
    var completed :=
      if w.link.baseband == Linking.BasebandComplete then [DisconnectionComplete(w.link.conHandle)] else [];
    EffectsJoin(released, completed);
  }

  // ---------------------------------------------------------------- one Wiimote's operations

  function SignalEvents(ss: seq<L2cap.Signal>): (r: seq<Linking.Event>)
    requires forall i :: 0 <= i < |ss| ==> Linking.SignalSized(ss[i])
    ensures |r| == |ss|
  {
    seq(|ss|, i requires 0 <= i < |ss| => Linking.Signalled(Linking.Decode(ss[i])))
  }

  lemma {:induction false} SignalsSized(w: Wiimote, ss: seq<L2cap.Signal>)
    requires SignalsExpected(w, ss)
    ensures forall i :: 0 <= i < |ss| ==> Linking.SignalSized(ss[i])
    decreases |ss|
  {
    hide OnSignal, Linking.SignalSized, Linking.Expected;
    if ss != [] {
      SignalsSized(OnSignal(w, ss[0]).0, ss[1..]);
    }
  }

  lemma OneSignal(w: Wiimote, s: L2cap.Signal)
    requires Linking.SignalSized(s) && Linking.Expected(w.link, Linking.Decode(s))
    ensures OnSignal(w, s).0.link == Linking.Step(w.link, Linking.Signalled(Linking.Decode(s))).0
    ensures LinkOuts(OnSignal(w, s).1) == Linking.Step(w.link, Linking.Signalled(Linking.Decode(s))).1
    ensures PadOuts(OnSignal(w, s).1) == []
  {
    hide Linking.Expected, Linking.SignalSized, L2cap.ParsedMtu;
    var r := Linking.Decode(s);
    if Linking.Refused(r) {
      DisconnectSendsNothing(w);
    } else {
      LinkEffectsAreOuts(Linking.OnRequest(w.link, r).1);
    }
  }

  /** The commands of a packet are steps of the connection; a refused one changes nothing there. */
  lemma {:induction false} SignalsAreSteps(w: Wiimote, ss: seq<L2cap.Signal>)
    requires SignalsExpected(w, ss)
    requires forall i :: 0 <= i < |ss| ==> Linking.SignalSized(ss[i])
    ensures Linking.Legal(w.link, SignalEvents(ss))
    ensures OnSignals(w, ss).0.link == Linking.StateAt(w.link, SignalEvents(ss), |ss|)
    ensures LinkOuts(OnSignals(w, ss).1) == AllOuts(w.link, SignalEvents(ss)) && PadOuts(OnSignals(w, ss).1) == []
    decreases |ss|
  {
    hide OnSignal, Linking.Step, Linking.SignalSized, Linking.Expected, Linking.Decode, Linking.Legal, Linking.StateAt,
         AllOuts;
    NoStep(w.link);
    if ss == [] {
      assert SignalEvents(ss) == [];
    } else {
      var w' := OnSignal(w, ss[0]).0;
      OneSignal(w, ss[0]);
      SignalsAreSteps(w', ss[1..]);
      var e := Linking.Signalled(Linking.Decode(ss[0]));
      OneStep(w.link, e);
      assert SignalEvents(ss) == [e] + SignalEvents(ss[1..]);
      LegalJoin(w.link, [e], SignalEvents(ss[1..]));
      StatesJoin(w.link, [e], SignalEvents(ss[1..]), |ss| - 1);
      OutsJoin(w.link, [e], SignalEvents(ss[1..]));
      EffectsJoin(OnSignal(w, ss[0]).1, OnSignals(w', ss[1..]).1);
    }
  }

  function PacketLinkEvents(t: Tables, w: Wiimote, p: seq<byte>): seq<Linking.Event>
    requires PacketExpected(t, w, p)
  {
    if PacketChannel(p) == L2cap.SIGNAL_CID then
      SignalsSized(w, L2cap.Signals(PacketPayload(p)));
      SignalEvents(L2cap.Signals(PacketPayload(p)))
    else []
  }

  function PacketPadEvents(t: Tables, w: Wiimote, p: seq<byte>): seq<Pad.Event>
    requires PacketExpected(t, w, p)
  {
    if IsHidOutput(w, p) then [Pad.Told(DecodeHid(PacketPayload(p)[1..]))] else []
  }

  lemma PacketHistory(t: Tables, w: Wiimote, p: seq<byte>)
    requires t.Valid() && Registers.Shaped(w.pad.mem) && PacketExpected(t, w, p)
    ensures var (w', es) := OnPacket(t, w, p);
            Follows(t, w, w', PacketLinkEvents(t, w, p), PacketPadEvents(t, w, p), es)
  {
    hide OnSignals, SignalsExpected, Pad.Hid, Pad.HidReadable, DecodeHid, HidWellFormed, WordAt, Val,
         L2cap.SignalsWellFormed, Registers.Shaped, Linking.Step, AllOuts, LinkOuts, PadOuts;
    var counted := w.(completed := (w.completed + 1) % COUNTER);
    NoEvents(t, w);
    if PacketChannel(p) == L2cap.SIGNAL_CID {
      var ss := L2cap.Signals(PacketPayload(p));
      SignalsSized(w, ss);
      SignalsIgnoreCounter(w, counted, ss);
      SignalsAreSteps(counted, ss);
      SignalsFrame(counted, ss);
    } else if IsHidOutput(w, p) {
      var c := DecodeHid(PacketPayload(p)[1..]);
      OnePadStep(t, w.pad, Pad.Told(c));
      PadEffectsAreOuts(Pad.Hid(t, w.pad, c).1);
    }
  }

  lemma TickHistory(t: Tables, w: Wiimote, env: Linking.TickEnv, input: Pad.Input)
    requires t.Valid() && TickExpected(t, w, input)
    ensures var (w', es) := OnTick(t, w, env, input);
            Follows(t, w, w', [Linking.Ticked(env)], if Linking.Operational(w.link) then [Pad.Ticked(input)] else [], es)
  {
    hide Pad.Tick, Pad.TickReadable, Linking.LinkingTick, Registers.Shaped, AllOuts, LinkOuts, PadOuts;
    OneStep(w.link, Linking.Ticked(env));
    NoEvents(t, w);
    if Linking.Operational(w.link) {
      OnePadStep(t, w.pad, Pad.Ticked(input));
      PadEffectsAreOuts(Pad.Tick(t, w.pad, input).1);
    } else {
      LinkEffectsAreOuts(Linking.OnTick(w.link, env).1);
    }
  }

  lemma NoEvents(t: Tables, w: Wiimote)
    requires t.Valid()
    ensures Linking.Legal(w.link, []) && Linking.StateAt(w.link, [], 0) == w.link && AllOuts(w.link, []) == []
    ensures Pad.Legal(t, w.pad, []) && Pad.After(t, w.pad, []) == w.pad && Pad.Outs(t, w.pad, []) == []
    ensures LinkOuts([]) == [] && PadOuts([]) == []
  {
  }

  /** w' is w after these events of its connection and its pad, and es is what it sent in them. */
  ghost predicate Follows(t: Tables, w: Wiimote, w': Wiimote, ls: seq<Linking.Event>, ps: seq<Pad.Event>, es: seq<Effect>)
    requires t.Valid()
  {
    && Linking.Legal(w.link, ls) && w'.link == Linking.StateAt(w.link, ls, |ls|) && LinkOuts(es) == AllOuts(w.link, ls)
    && Pad.Legal(t, w.pad, ps) && w'.pad == Pad.After(t, w.pad, ps) && PadOuts(es) == Pad.Outs(t, w.pad, ps)
  }

  lemma FollowsTwice(t: Tables, w: Wiimote, w1: Wiimote, w2: Wiimote, ls: seq<Linking.Event>, ps: seq<Pad.Event>,
                     es: seq<Effect>, ls': seq<Linking.Event>, ps': seq<Pad.Event>, es': seq<Effect>)
    requires t.Valid() && Follows(t, w, w1, ls, ps, es) && Follows(t, w1, w2, ls', ps', es')
    ensures Follows(t, w, w2, ls + ls', ps + ps', es + es')
  {
    hide Linking.Step, Pad.Step, Linking.Legal, AllOuts, LinkOuts, PadOuts;
    LegalJoin(w.link, ls, ls');
    StatesJoin(w.link, ls, ls', |ls'|);
    OutsJoin(w.link, ls, ls');
    PadJoin(t, w.pad, ps, ps');
    EffectsJoin(es, es');
  }

  // ---------------------------------------------------------------- Wiimote i in a step of the system

  /** What Wiimote i's tick depends on. */
  function EnvOf(s: Sys, e: Event, i: nat): Linking.TickEnv
    requires e.Timer? && i < |s.ws| && i < |e.ticks|
  {
    TickEnv(CanRequest(s.hci), e.ticks[i].ok, CidsUpTo(AfterAssign(s, e.calibration).0, i, s.cids))
  }

  function LinkEvents(t: Tables, s: Sys, e: Event, i: nat): seq<Linking.Event>
    requires Enabled(t, s, e) && i < |s.ws|
  {
    match e
    case Timer(ticks, _, _) => if i < |ticks| then [Linking.Ticked(EnvOf(s, e, i))] else []
    case Accept(j) => if i == j then [Linking.Accept(s.hci.last)] else []
    case AclOut(packet) =>
      if Receiver(s.ws, packet) == Some(i) then PacketLinkEvents(t, s.ws[i], packet[4..]) else []
    case _ => []
  }

  function PadEvents(t: Tables, s: Sys, e: Event, i: nat): seq<Pad.Event>
    requires Enabled(t, s, e) && i < |s.ws|
  {
    match e
    case Timer(ticks, _, _) =>
      if i < |ticks| && Linking.Operational(s.ws[i].link) then [Pad.Ticked(ticks[i].input)] else []
    case AclOut(packet) =>
      if Receiver(s.ws, packet) == Some(i) then PacketPadEvents(t, s.ws[i], packet[4..]) else []
    case _ => []
  }

  /** What Wiimote i does to the outside in a step. */
  ghost function Sent(t: Tables, s: Sys, e: Event, i: nat): seq<Effect>
    requires t.Valid() && Enabled(t, s, e) && i < |s.ws|
  {
    match e
    case Timer(ticks, calibration, _) =>
      var w := AfterAssign(s, calibration).0[i];
      if w.active then OnTick(t, w, EnvOf(s, e, i), ticks[i].input).1 else []
    case Reject(j) => if i == j then Disconnect(s.ws[i]).1 else []
    case Command(data) =>
      if Answering(s, data) == Some(i) && WordAt(data, 0) == HciState.CMD_DISCONNECT then Disconnect(s.ws[i]).1 else []
    case GamepadRemoved(d) =>
      var k := InputDevices.FindDevice(s.devs, d);
      if k.Some? && s.devs[k.value].wiimote == Some(i) then Disconnect(s.ws[i].(inputDevice := None)).1 else []
    case AclOut(packet) =>
      if Receiver(s.ws, packet) == Some(i) then OnPacket(t, s.ws[i], packet[4..]).1 else []
    case _ => []
  }

  lemma TimerHistory(t: Tables, s: Sys, e: Event, i: nat)
    requires Inv(t, s) && e.Timer? && Enabled(t, s, e) && i < |s.ws| && s.ws[i].active
    ensures i < |Step(t, s, e).ws|
    ensures Follows(t, s.ws[i], Step(t, s, e).ws[i], LinkEvents(t, s, e, i), PadEvents(t, s, e, i), Sent(t, s, e, i))
  {
    hide Owned, Sound, OnTick, TickExpected, Pad.Legal, Pad.After, Pad.Outs, Linking.Legal, Linking.StateAt,
         AllOuts, LinkOuts, PadOuts, CidsUpTo, TickEnv;
    if CanRequest(s.hci) {
      AssignFacts(s.ws, InputDevices.Ticked(s.devs), e.calibration, 0, i);
    }
    assert AfterAssign(s, e.calibration).0[i] == s.ws[i];
    TickHistory(t, s.ws[i], EnvOf(s, e, i), e.ticks[i].input);
  }

  lemma AclHistory(t: Tables, s: Sys, packet: seq<byte>, i: nat)
    requires Inv(t, s) && AclExpected(t, s, packet) && Receiver(s.ws, packet) == Some(i)
    ensures i < |HostData(t, s, packet).ws|
    ensures Follows(t, s.ws[i], HostData(t, s, packet).ws[i],
                    PacketLinkEvents(t, s.ws[i], packet[4..]), PacketPadEvents(t, s.ws[i], packet[4..]),
                    OnPacket(t, s.ws[i], packet[4..]).1)
  {
    hide Owned, OnPacket, PacketExpected, PacketLinkEvents, PacketPadEvents, WordAt,
         Pad.Legal, Pad.After, Pad.Outs, Pad.Inv, Linking.Legal, Linking.StateAt, AllOuts, LinkOuts, PadOuts;
    PacketHistory(t, s.ws[i], packet[4..]);
  }

  lemma Untouched(t: Tables, w: Wiimote, w': Wiimote, es: seq<Effect>)
    requires t.Valid() && w'.link == w.link && w'.pad == w.pad && LinkOuts(es) == [] && PadOuts(es) == []
    ensures Follows(t, w, w', [], [], es)
  {
  }

  /** What every other event does to a Wiimote's connection and pad: nothing. */
  lemma OthersLeaveAlone(t: Tables, s: Sys, e: Event, i: nat)
    requires Inv(t, s) && Enabled(t, s, e) && i < |s.ws| && !e.Timer? && e != Accept(i)
    requires e.AclOut? ==> Receiver(s.ws, e.packet) != Some(i)
    ensures i < |Step(t, s, e).ws|
    ensures Step(t, s, e).ws[i].link == s.ws[i].link && Step(t, s, e).ws[i].pad == s.ws[i].pad
    ensures LinkOuts(Sent(t, s, e, i)) == [] && PadOuts(Sent(t, s, e, i)) == []
  {
    hide Sound, Owned, WordAt, OnPacket, PacketExpected, LinkOuts, PadOuts, FakeFor, CarryOut,
         HciState.CommandState, HciState.CommandWellFormed, HciState.EventExpected, HciState.CommandExpected;
    NoEvents(t, s.ws[i]);
    DisconnectSendsNothing(s.ws[i]);
    DisconnectSendsNothing(s.ws[i].(inputDevice := None));
    if e.Command? {
      OwnedReset(s.ws, s.devs, 0);
    }
  }

  /** Whatever the system does, to an active Wiimote it is a stretch of its own history. */
  lemma StepHistory(t: Tables, s: Sys, e: Event, i: nat)
    requires Inv(t, s) && Enabled(t, s, e) && i < |s.ws| && s.ws[i].active
    ensures i < |Step(t, s, e).ws|
    ensures Follows(t, s.ws[i], Step(t, s, e).ws[i], LinkEvents(t, s, e, i), PadEvents(t, s, e, i), Sent(t, s, e, i))
  {
    hide Sound, Owned, WordAt, PacketLinkEvents, PacketPadEvents, OnPacket, PacketExpected, Follows, LinkOuts, PadOuts,
         HciState.CommandState, HciState.CommandWellFormed, HciState.EventExpected;
    if e.Timer? {
      TimerHistory(t, s, e, i);
    } else if e.AclOut? && Receiver(s.ws, e.packet) == Some(i) {
      AclHistory(t, s, e.packet, i);
    } else if e == Accept(i) {
      AcceptHistory(t, s, i);
    } else {
      OthersLeaveAlone(t, s, e, i);
      Untouched(t, s.ws[i], Step(t, s, e).ws[i], Sent(t, s, e, i));
    }
  }

  lemma AcceptHistory(t: Tables, s: Sys, i: nat)
    requires Inv(t, s) && Enabled(t, s, Accept(i))
    ensures i < |Step(t, s, Accept(i)).ws|
    ensures Follows(t, s.ws[i], Step(t, s, Accept(i)).ws[i], [Linking.Accept(s.hci.last)], [], [])
  {
    hide Sound, Owned;
    OneStep(s.ws[i].link, Linking.Accept(s.hci.last));
  }

  // ---------------------------------------------------------------- Wiimote i in a run of the system

  /** Wiimote i is active in every state of the run but perhaps the last. */
  ghost predicate Active(t: Tables, s: Sys, es: seq<Event>, i: nat)
    requires t.Valid() && Legal(t, s, es)
    decreases |es|
  {
    i < |s.ws| && (es != [] ==> s.ws[i].active && Active(t, Step(t, s, es[0]), es[1..], i))
  }

  ghost function LinkTrace(t: Tables, s: Sys, es: seq<Event>, i: nat): seq<Linking.Event>
    requires t.Valid() && Legal(t, s, es) && Active(t, s, es, i)
    decreases |es|
  {
    if es == [] then [] else LinkEvents(t, s, es[0], i) + LinkTrace(t, Step(t, s, es[0]), es[1..], i)
  }

  ghost function PadTrace(t: Tables, s: Sys, es: seq<Event>, i: nat): seq<Pad.Event>
    requires t.Valid() && Legal(t, s, es) && Active(t, s, es, i)
    decreases |es|
  {
    if es == [] then [] else PadEvents(t, s, es[0], i) + PadTrace(t, Step(t, s, es[0]), es[1..], i)
  }

  /** Everything Wiimote i does to the outside in a run, in order. */
  ghost function SentOver(t: Tables, s: Sys, es: seq<Event>, i: nat): seq<Effect>
    requires t.Valid() && Legal(t, s, es) && Active(t, s, es, i)
    decreases |es|
  {
    if es == [] then [] else Sent(t, s, es[0], i) + SentOver(t, Step(t, s, es[0]), es[1..], i)
  }

  /** Over every run, states and outputs of Wiimote i are those of its two histories. */
  lemma {:induction false} RunHistory(t: Tables, s: Sys, es: seq<Event>, i: nat)
    requires Inv(t, s) && Legal(t, s, es) && Active(t, s, es, i)
    ensures i < |After(t, s, es).ws|
    ensures Follows(t, s.ws[i], After(t, s, es).ws[i],
                    LinkTrace(t, s, es, i), PadTrace(t, s, es, i), SentOver(t, s, es, i))
    decreases |es|
  {
    hide Sound, Owned, Enabled, Step, LinkEvents, PadEvents, Sent, Follows, LinkOuts, PadOuts;
    if es == [] {
      NoEvents(t, s.ws[i]);
      Untouched(t, s.ws[i], s.ws[i], []);
    } else {
      var s' := Step(t, s, es[0]);
      StepKeepsInv(t, s, es[0]);
      StepHistory(t, s, es[0], i);
      RunHistory(t, s', es[1..], i);
      FollowsTwice(t, s.ws[i], s'.ws[i], After(t, s, es).ws[i],
                   LinkEvents(t, s, es[0], i), PadEvents(t, s, es[0], i), Sent(t, s, es[0], i),
                   LinkTrace(t, s', es[1..], i), PadTrace(t, s', es[1..], i), SentOver(t, s', es[1..], i));
    }
  }

  // ---------------------------------------------------------------- linking in every run

  /** The milestones of linking, in order, in a history of the connection. */
  ghost predicate LinkedInOrder(l: Linking.Link, es: seq<Linking.Event>) {
    exists a: nat, b: nat, c: nat, d: nat, e: nat, f: nat ::
      && a < b < c < d < e < f < |es|
      && Linking.Occurs(l, es, a, Linking.Accepted)
      && Linking.Occurs(l, es, b, Linking.Connected(Linking.Cntl))
      && Linking.Occurs(l, es, c, Linking.Completed(Linking.Cntl))
      && Linking.Occurs(l, es, d, Linking.Connected(Linking.Intr))
      && Linking.Occurs(l, es, e, Linking.Completed(Linking.Intr))
      && Linking.Occurs(l, es, f, Linking.Resumed)
  }

  lemma Before(l: Linking.Link, es: seq<Linking.Event>, i: nat, m: Linking.Milestone) returns (j: nat)
    requires Linking.Fresh(l) && Linking.Legal(l, es) && i < |es| && Linking.Occurs(l, es, i, m)
    requires Linking.Predecessor(m).Some?
    ensures j < i && Linking.Occurs(l, es, j, Linking.Predecessor(m).value)
  {
    hide Linking.Occurs, Linking.StateAt, Linking.Legal;
    Linking.LinkingOrder(l, es, i, m);
    j :| 0 <= j < i && Linking.Occurs(l, es, j, Linking.Predecessor(m).value);
  }

  /** In every run of the system, a Wiimote that serves reports has been accepted, has linked both
      its channels, and has woken its gamepad, in that order, since it was assigned. */
  lemma ReportsOnlyAfterLinking(t: Tables, s: Sys, es: seq<Event>, i: nat)
    requires Inv(t, s) && Legal(t, s, es) && Active(t, s, es, i) && Linking.Fresh(s.ws[i].link)
    requires i < |After(t, s, es).ws| && Linking.Operational(After(t, s, es).ws[i].link)
    ensures LinkedInOrder(s.ws[i].link, LinkTrace(t, s, es, i))
  {
    hide Sound, Owned, Enabled, Step, Legal, LinkTrace, PadTrace, SentOver, LinkOuts, PadOuts, AllOuts,
         Linking.Occurs, Linking.StateAt, Linking.Legal;
    RunHistory(t, s, es, i);
    var l, ls := s.ws[i].link, LinkTrace(t, s, es, i);
    Linking.HistoryOf(l, ls, |ls|, Linking.Cntl);
    var f: nat :| f < |ls| && Linking.Occurs(l, ls, f, Linking.Resumed);
    var e := Before(l, ls, f, Linking.Resumed);
    var d := Before(l, ls, e, Linking.Completed(Linking.Intr));
    var c := Before(l, ls, d, Linking.Connected(Linking.Intr));
    var b := Before(l, ls, c, Linking.Completed(Linking.Cntl));
    var a := Before(l, ls, b, Linking.Connected(Linking.Cntl));
  }

  /** A Wiimote that the timer has just assigned a gamepad starts such a history. */
  lemma AssignedIsFresh(w: Wiimote, slot: nat, calibration: seq<byte>)
    ensures Linking.Fresh(Activated(w, slot, calibration).link)
  {
  }

  // ---------------------------------------------------------------- silence and reading in every run

  /** In every run of the system, while reporting is disabled and the host sets no report mode, the
      Wiimote sends no data report. */
  lemma SilentInEveryRun(t: Tables, s: Sys, es: seq<Event>, i: nat)
    requires Inv(t, s) && Legal(t, s, es) && Active(t, s, es, i)
    requires s.ws[i].pad.mode == Reports.REPORT_DISABLED
    requires forall k :: 0 <= k < |PadTrace(t, s, es, i)| ==> !Pad.IsModeCommand(PadTrace(t, s, es, i)[k])
    ensures Pad.NoDataReports(PadOuts(SentOver(t, s, es, i)))
  {
    hide Sound, Owned, Enabled, Step, Legal, LinkTrace, PadTrace, SentOver, LinkOuts, PadOuts, AllOuts, Pad.Outs,
         Linking.StateAt, Linking.Legal, Pad.Legal, Pad.After;
    RunHistory(t, s, es, i);
    Pad.SilentUntilModeSet(t, s.ws[i].pad, PadTrace(t, s, es, i));
  }

  /** So there is none in the period in which the extension port changes, and none after it. */
  lemma SilentAfterChangeInEveryRun(t: Tables, s: Sys, e: Event, es: seq<Event>, i: nat)
    requires Inv(t, s) && e.Timer? && Enabled(t, s, e) && i < |s.ws| && s.ws[i].active
    requires Linking.Operational(s.ws[i].link) && Pad.ChangeDue(s.ws[i].pad)
    requires Legal(t, Step(t, s, e), es) && Active(t, Step(t, s, e), es, i)
    requires var ps := PadTrace(t, Step(t, s, e), es, i); forall k :: 0 <= k < |ps| ==> !Pad.IsModeCommand(ps[k])
    ensures Pad.NoDataReports(PadOuts(Sent(t, s, e, i)))
    ensures Pad.NoDataReports(PadOuts(SentOver(t, Step(t, s, e), es, i)))
  {
    hide Sound, Owned, Enabled, Step, Legal, LinkTrace, PadTrace, SentOver, LinkOuts, PadOuts, AllOuts, Pad.Outs,
         Linking.StateAt, Linking.Legal, Pad.Legal, Pad.After, Pad.ChangeDue;
    StepKeepsInv(t, s, e);
    StepHistory(t, s, e, i);
    ChangeIsSilent(t, s, e, i);
    SilentInEveryRun(t, Step(t, s, e), es, i);
  }

  lemma ChangeIsSilent(t: Tables, s: Sys, e: Event, i: nat)
    requires Inv(t, s) && e.Timer? && Enabled(t, s, e) && i < |s.ws| && s.ws[i].active
    requires Linking.Operational(s.ws[i].link) && Pad.ChangeDue(s.ws[i].pad)
    requires i < |Step(t, s, e).ws|
    requires Follows(t, s.ws[i], Step(t, s, e).ws[i], LinkEvents(t, s, e, i), PadEvents(t, s, e, i), Sent(t, s, e, i))
    ensures Pad.NoDataReports(PadOuts(Sent(t, s, e, i))) && Step(t, s, e).ws[i].pad.mode == Reports.REPORT_DISABLED
  {
    hide Sound, Owned, LinkOuts, PadOuts, AllOuts, Linking.StateAt, Linking.Legal, Pad.ChangeDue, Pad.Step, Sent, Step;
    var p, tick := s.ws[i].pad, Pad.Ticked(e.ticks[i].input);
    assert PadEvents(t, s, e, i) == [tick];
    OnePadStep(t, p, tick);
    Pad.PortChange(t, p, tick);
    assert p.curExt != p.newExt by { DueMeansDifferent(p); }
  }

  lemma DueMeansDifferent(p: Pad.Pad)
    requires Pad.ChangeDue(p)
    ensures p.newExt != p.curExt
  {
  }

  /** In every run of the system, an in-range read request of the host is answered as one atomic
      read of the registers at the time of the request, whatever else happens until it is done,
      except for writes of the host. */
  lemma ReadIsAtomicInEveryRun(t: Tables, s: Sys, e: Event, es: seq<Event>, i: nat, r: Registers.ReadRequest)
    requires Inv(t, s) && Enabled(t, s, e) && i < |s.ws| && s.ws[i].active
    requires PadEvents(t, s, e, i) == [Pad.Told(Pad.ReadData(r))] && s.ws[i].pad.mem.req.size == 0 && r.size > 0
    requires Registers.WholeError(r) == Registers.ERROR_SUCCESS
    requires Registers.AtExt(r) ==> Registers.Decryptable(t, s.ws[i].pad.mem.ext)
    requires Legal(t, Step(t, s, e), es) && Active(t, Step(t, s, e), es, i)
    requires var (p, ps) := (Step(t, s, e).ws[i].pad, PadTrace(t, Step(t, s, e), es, i));
             && Pad.Legal(t, p, ps) && Pad.InProgress(t, p, ps) && (forall k :: 0 <= k < |ps| ==> !Pad.IsWrite(ps[k]))
    requires i < |After(t, Step(t, s, e), es).ws| && After(t, Step(t, s, e), es).ws[i].pad.mem.req.size == 0
    ensures var replies := Pad.ReadReplies(PadOuts(Sent(t, s, e, i) + SentOver(t, Step(t, s, e), es, i)));
            && |replies| == Registers.Chunks(r.size)
            && Registers.Shaped(s.ws[i].pad.mem)
            && Pad.DataOf(replies) == Registers.Snapshot(t, s.ws[i].pad.mem, r)
            && forall k :: 0 <= k < |replies| ==> replies[k].error == Registers.ERROR_SUCCESS
  {
    hide Sound, Owned, Enabled, Step, Legal, LinkTrace, PadTrace, SentOver, Sent, LinkOuts, PadOuts, AllOuts,
         Linking.StateAt, Linking.Legal, PadEvents, LinkEvents, Pad.ReadReplies, Pad.DataOf, Registers.Snapshot;
    var s' := Step(t, s, e);
    StepKeepsInv(t, s, e);
    StepHistory(t, s, e, i);
    RunHistory(t, s', es, i);
    EffectsJoin(Sent(t, s, e, i), SentOver(t, s', es, i));
    SoundPad(t, s, i);
    ReadOfHistory(t, s.ws[i].pad, r, PadTrace(t, s', es, i), PadOuts(Sent(t, s, e, i)), PadOuts(SentOver(t, s', es, i)));
  }

  lemma SoundPad(t: Tables, s: Sys, i: nat)
    requires Inv(t, s) && i < |s.ws| && s.ws[i].active
    ensures Pad.Inv(t, s.ws[i].pad) && Registers.Shaped(s.ws[i].pad.mem)
  {
  }

  /** The same about a history of the pad, in two parts. */
  lemma ReadOfHistory(t: Tables, p: Pad.Pad, r: Registers.ReadRequest, ps: seq<Pad.Event>, first: seq<Pad.Out>, rest: seq<Pad.Out>)
    requires Pad.Inv(t, p) && p.mem.req.size == 0 && r.size > 0
    requires Registers.WholeError(r) == Registers.ERROR_SUCCESS
    requires Registers.AtExt(r) ==> Registers.Decryptable(t, p.mem.ext)
    requires Pad.Legal(t, p, [Pad.Told(Pad.ReadData(r))]) && first == Pad.Outs(t, p, [Pad.Told(Pad.ReadData(r))])
    requires var p' := Pad.After(t, p, [Pad.Told(Pad.ReadData(r))]);
             && Pad.Legal(t, p', ps) && Pad.InProgress(t, p', ps) && (forall k :: 0 <= k < |ps| ==> !Pad.IsWrite(ps[k]))
             && rest == Pad.Outs(t, p', ps) && Pad.After(t, p', ps).mem.req.size == 0
    ensures var replies := Pad.ReadReplies(first + rest);
            && |replies| == Registers.Chunks(r.size) && Pad.DataOf(replies) == Registers.Snapshot(t, p.mem, r)
            && forall k :: 0 <= k < |replies| ==> replies[k].error == Registers.ERROR_SUCCESS
  {
    hide KeyOf, Registers.ProcessRead, Pad.ReadReplies, Pad.DataOf, Registers.Snapshot, Registers.Decryptable,
         Registers.WholeError, Registers.Chunks, Pad.InProgress, Pad.Hid;
    var read := Pad.Told(Pad.ReadData(r));
    assert Pad.Enabled(t, p, read);
    OnePadStep(t, p, read);
    PadJoin(t, p, [read], ps);
    Pad.ReadIsAtomic(t, p, r, ps);
  }

  // ---------------------------------------------------------------- channel identifiers in every run

  /** Every Wiimote's open channels have identifiers that were given out, and different ones. */
  ghost predicate CidsNumbered(s: Sys) {
    forall i :: 0 <= i < |s.ws| ==> ChannelIds.Numbered(s.ws[i].link, s.cids)
  }

  /** So it is at boot, when no channel is open. */
  lemma NothingOpen(s: Sys)
    requires forall i :: 0 <= i < |s.ws| ==> !s.ws[i].link.cntl.valid && !s.ws[i].link.intr.valid
    ensures CidsNumbered(s)
  {
  }

  lemma NumberedLater(l: Linking.Link, a: nat, b: nat)
    requires ChannelIds.Numbered(l, a) && a <= b
    ensures ChannelIds.Numbered(l, b)
  {
    hide ChannelIds.Drawn;
    if l.cntl.valid { ChannelIds.DrawnLater(l.cntl.localCid, 0, a, 0, b); }
    if l.intr.valid { ChannelIds.DrawnLater(l.intr.localCid, 0, a, 0, b); }
  }

  lemma {:induction false} SignalsKeepNumbered(l: Linking.Link, es: seq<Linking.Event>, n: nat, i: nat)
    requires ChannelIds.Numbered(l, n) && n <= ChannelIds.CID_LIMIT && i <= |es|
    requires forall k :: 0 <= k < |es| ==> !es[k].Ticked?
    ensures ChannelIds.Numbered(Linking.StateAt(l, es, i), n)
  {
    hide ChannelIds.Numbered, Linking.Step;
    if i > 0 {
      SignalsKeepNumbered(l, es, n, i - 1);
      ChannelIds.StepKeepsNumbered(Linking.StateAt(l, es, i - 1), es[i - 1], n, n);
    }
  }

  lemma {:induction false} CidsGrow(ws: seq<Wiimote>, i: nat, j: nat, cids: nat)
    requires i <= j <= |ws|
    ensures CidsUpTo(ws, i, cids) <= CidsUpTo(ws, j, cids)
  {
    if i < j {
      CidsGrow(ws, i, j - 1, cids);
    }
  }

  /** The tick of an active Wiimote: a channel it opens gets an unused identifier of its own, drawn
      in this step. */
  lemma TickDraws(t: Tables, s: Sys, e: Event, i: nat)
    requires Inv(t, s) && CidsNumbered(s) && e.Timer? && Enabled(t, s, e) && i < |s.ws|
    requires Step(t, s, e).cids <= ChannelIds.CID_LIMIT
    ensures var w, env := AfterAssign(s, e.calibration).0[i], EnvOf(s, e, i);
            && ChannelIds.Numbered(w.link, s.cids) && s.cids <= Step(t, s, e).cids
            && (w.active && Linking.Opens(w.link) ==>
                  ChannelIds.Drawn(env.cid, s.cids, Step(t, s, e).cids) && ChannelIds.FreshCid(w.link, env.cid))
  {
    hide Owned, Sound, TickAll, TickExpected, Linking.Opens, ChannelIds.CidOf, ChannelIds.FreshCid, Pad.InitPad;
    var ws := AfterAssign(s, e.calibration).0;
    if CanRequest(s.hci) {
      AssignFacts(s.ws, InputDevices.Ticked(s.devs), e.calibration, 0, i);
      if ws[i] != s.ws[i] {
        AssignedIsFresh(s.ws[i], ws[i].inputDevice.value, e.calibration);
      }
    }
    CidsGrow(ws, i + 1, |ws|, s.cids);
    var env := EnvOf(s, e, i);
    if ws[i].active && Linking.Opens(ws[i].link) {
      var k := CidsUpTo(ws, i, s.cids);
      assert env.cid == ChannelIds.CidOf(k) && s.cids <= k < CidsUpTo(ws, i + 1, s.cids);
      assert ChannelIds.Drawn(env.cid, s.cids, Step(t, s, e).cids);
      ChannelIds.DrawnIsFresh(ws[i].link, s.cids, Step(t, s, e).cids, env.cid);
    }
  }

  lemma TimerKeepsNumbered(t: Tables, s: Sys, e: Event, i: nat)
    requires Inv(t, s) && CidsNumbered(s) && e.Timer? && Enabled(t, s, e) && i < |s.ws|
    requires Step(t, s, e).cids <= ChannelIds.CID_LIMIT
    ensures i < |Step(t, s, e).ws| && ChannelIds.Numbered(Step(t, s, e).ws[i].link, Step(t, s, e).cids)
  {
    hide Owned, Sound, OnTick, TickExpected, Linking.Opens, ChannelIds.Numbered, ChannelIds.Drawn, ChannelIds.FreshCid,
         EnvOf, CidsUpTo, AfterAssign;
    TickDraws(t, s, e, i);
    var w, n := AfterAssign(s, e.calibration).0[i], Step(t, s, e).cids;
    if w.active {
      var tick := Linking.Ticked(EnvOf(s, e, i));
      TickHistory(t, w, EnvOf(s, e, i), e.ticks[i].input);
      OneStep(w.link, tick);
      ChannelIds.StepKeepsNumbered(w.link, tick, s.cids, n);
      TickedLink(t, s, e, i);
    } else {
      NumberedLater(w.link, s.cids, n);
      TickedLink(t, s, e, i);
    }
  }

  lemma TickedLink(t: Tables, s: Sys, e: Event, i: nat)
    requires Inv(t, s) && e.Timer? && Enabled(t, s, e) && i < |s.ws|
    ensures i < |Step(t, s, e).ws|
    ensures var w := AfterAssign(s, e.calibration).0[i];
            Step(t, s, e).ws[i].link ==
            if w.active then OnTick(t, w, EnvOf(s, e, i), e.ticks[i].input).0.link else w.link
  {
    hide Owned, Sound, OnTick, TickExpected, AfterAssign, CidsUpTo;
  }

  /** Every step keeps the numbering, as long as the counter has not wrapped around. */
  lemma StepKeepsCids(t: Tables, s: Sys, e: Event)
    requires Inv(t, s) && Enabled(t, s, e) && CidsNumbered(s) && Step(t, s, e).cids <= ChannelIds.CID_LIMIT
    ensures CidsNumbered(Step(t, s, e)) && s.cids <= Step(t, s, e).cids
  {
    hide Owned, Sound, Enabled, Step, ChannelIds.Numbered;
    SameCids(t, s, e);
    StepKeepsInv(t, s, e);
    forall i | 0 <= i < |Step(t, s, e).ws| ensures ChannelIds.Numbered(Step(t, s, e).ws[i].link, Step(t, s, e).cids) {
      if e.Timer? {
        TimerKeepsNumbered(t, s, e, i);
      } else {
        OtherKeepsNumbered(t, s, e, i);
      }
    }
  }

  lemma SameCids(t: Tables, s: Sys, e: Event)
    requires Inv(t, s) && Enabled(t, s, e)
    ensures s.cids <= Step(t, s, e).cids && (!e.Timer? ==> Step(t, s, e).cids == s.cids)
  {
    hide Owned, Sound, OnPacket, PacketExpected, WordAt, AfterAssign, TimerTicked,
         HciState.CommandState, HciState.CommandWellFormed, HciState.EventExpected;
  }

  lemma OtherKeepsNumbered(t: Tables, s: Sys, e: Event, i: nat)
    requires Inv(t, s) && Enabled(t, s, e) && !e.Timer? && i < |s.ws|
    requires ChannelIds.Numbered(s.ws[i].link, s.cids) && s.cids <= ChannelIds.CID_LIMIT
    ensures i < |Step(t, s, e).ws| && ChannelIds.Numbered(Step(t, s, e).ws[i].link, s.cids)
  {
    hide Owned, Sound, WordAt, PacketExpected, OnPacket, ChannelIds.Numbered, LinkOuts, PadOuts, AllOuts,
         Linking.StateAt, Linking.Legal, HciState.CommandWellFormed, HciState.EventExpected, HciState.CommandState;
    if e == Accept(i) || (e.AclOut? && Receiver(s.ws, e.packet) == Some(i)) {
      StepHistory(t, s, e, i);
      var ls := LinkEvents(t, s, e, i);
      SignalsKeepNumbered(s.ws[i].link, ls, s.cids, |ls|);
    } else {
      OthersLeaveAlone(t, s, e, i);
    }
  }

  /** Within the first 0xFFC0 identifiers, in every run of the system: the channels of every Wiimote
      are told apart by their identifiers, so a lookup finds the channel that is meant, and each
      channel is opened under an unused one outside the reserved range (TickDraws). */
  lemma {:induction false} RunKeepsCids(t: Tables, s: Sys, es: seq<Event>)
    requires Inv(t, s) && CidsNumbered(s) && Legal(t, s, es) && After(t, s, es).cids <= ChannelIds.CID_LIMIT
    ensures CidsNumbered(After(t, s, es)) && s.cids <= After(t, s, es).cids
    decreases |es|
  {
    hide Sound, Owned, Enabled, Step, CidsNumbered;
    if es != [] {
      StepKeepsInv(t, s, es[0]);
      CidsNeverFall(t, Step(t, s, es[0]), es[1..]);
      StepKeepsCids(t, s, es[0]);
      RunKeepsCids(t, Step(t, s, es[0]), es[1..]);
    }
  }

  lemma {:induction false} CidsNeverFall(t: Tables, s: Sys, es: seq<Event>)
    requires Inv(t, s) && Legal(t, s, es)
    ensures s.cids <= After(t, s, es).cids
    decreases |es|
  {
    hide Sound, Owned, Enabled, Step;
    if es != [] {
      StepKeepsInv(t, s, es[0]);
      SameCids(t, s, es[0]);
      CidsNeverFall(t, Step(t, s, es[0]), es[1..]);
    }
  }

  /** So from boot, when no channel is open and no identifier has been given out. */
  lemma CidsFromBoot(t: Tables, s: Sys, es: seq<Event>)
    requires Inv(t, s) && Legal(t, s, es) && s.cids == 0 && After(t, s, es).cids <= ChannelIds.CID_LIMIT
    requires forall i :: 0 <= i < |s.ws| ==> !s.ws[i].link.cntl.valid && !s.ws[i].link.intr.valid
    ensures CidsNumbered(After(t, s, es))
  {
    hide Sound, Owned, Enabled, Step, CidsNumbered;
    NothingOpen(s);
    RunKeepsCids(t, s, es);
  }
}
