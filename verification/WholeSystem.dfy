/**
 * The whole filter: gamepads, timer, host and dongle acting on the manager, seen as events of the
 * handle numbering in Routing. Every run of the system is a run there, so its results about
 * names and routes hold for the real tables and Wiimotes.
 */
module WholeSystem {
  import opened Bytes
  import opened FakeWiimote
  import opened Manager
  import opened Crypto
  import HciState
  import Packets
  import Routing
  import InputDevices
  import Registers

  /** The virtual handle of each connected fake Wiimote. */
  function Fakes(ws: seq<Wiimote>): (r: seq<Option<word>>)
    ensures |r| == |ws|
  {
    seq(|ws|, i requires 0 <= i < |ws| => if ws[i].Connected() then Some(ws[i].link.conHandle) else None)
  }

  ghost predicate Corresponds(s: Sys, net: Routing.Net) {
    net.hci == s.hci && net.fakes == Fakes(s.ws)
  }

  /** A Wiimote that was connected is not any more, or never was. */
  function DownIf(ws: seq<Wiimote>, i: nat): seq<Routing.Event>
    requires i < |ws|
  {
    if ws[i].Connected() then [] else [Routing.FakeDown(i)]
  }

  /** The connection events behind a step of the system. */
  ghost function Trace(t: Tables, s: Sys, e: Event): seq<Routing.Event>
    requires Inv(t, s) && Enabled(t, s, e)
  {
    match e
    case FromController(data) => [Routing.FromController(data)]
    case Accept(i) => [Routing.FakeUp(i)]
    case Reject(i) => [Routing.FakeDown(i)]
    case Command(data) =>
      if Answering(s, data).Some? then
        (if WordAt(data, 0) == HciState.CMD_DISCONNECT then [Routing.FakeDown(Answering(s, data).value)] else [])
      else if ByAddress(data).Some? then []
      else [Routing.FromHost(data)]
    case AclOut(packet) =>
      (match Receiver(s.ws, packet)
       case Some(i) => DownIf(HostData(t, s, packet).ws, i)
       case None => [])
    case GamepadRemoved(d) =>
      (match InputDevices.FindDevice(s.devs, d)
       case Some(k) => if s.devs[k].wiimote.Some? then [Routing.FakeDown(s.devs[k].wiimote.value)] else []
       case None => [])
    case _ => []
  }

  lemma RunOne(net: Routing.Net, e: Routing.Event)
    requires Routing.Inv(net) && Routing.Legal(net, [e])
    ensures Routing.Enabled(net, e) && Routing.Run(net, [e]) == Routing.Step(net, e)
  {
    Routing.StepKeepsInv(net, e);
    assert [e][1..] == [];
    assert Routing.Run(Routing.Step(net, e), []) == Routing.Step(net, e);
  }

  // ---------------------------------------------------------------- one step

  lemma WiimoteDown(s: Sys, s': Sys, net: Routing.Net, i: nat)
    requires Corresponds(s, net) && Routing.Inv(net) && Routing.Legal(net, [Routing.FakeDown(i)])
    requires i < |s.ws| && s'.hci == s.hci && |s'.ws| == |s.ws| && !s'.ws[i].active
    requires forall j :: 0 <= j < |s.ws| && j != i ==> s'.ws[j] == s.ws[j]
    ensures Corresponds(s', Routing.Run(net, [Routing.FakeDown(i)]))
  {
    hide Routing.Inv, Routing.Legal, Routing.Run;
    RunOne(net, Routing.FakeDown(i));
  }

  lemma TimerStep(t: Tables, s: Sys, e: Event, net: Routing.Net)
    requires Inv(t, s) && e.Timer? && Enabled(t, s, e) && Corresponds(s, net)
    ensures Corresponds(Step(t, s, e), net)
  {
    hide Sound, Owned, AfterAssign, TickAll, Enabled;
    var ws := TimerTicked(t, s, e);
    forall i | 0 <= i < |s.ws|
      ensures ws[i].Connected() == s.ws[i].Connected()
      ensures s.ws[i].Connected() ==> ws[i].link.conHandle == s.ws[i].link.conHandle
    {
      TimerWiimotes(t, s, e, i);
    }
    assert Fakes(Cleared(ws)) == Fakes(s.ws);
  }

  lemma AcceptStep(t: Tables, s: Sys, i: nat, net: Routing.Net)
    requires Inv(t, s) && Enabled(t, s, Accept(i)) && Corresponds(s, net)
    requires Routing.Inv(net) && Routing.Legal(net, [Routing.FakeUp(i)])
    ensures Corresponds(Step(t, s, Accept(i)), Routing.Run(net, [Routing.FakeUp(i)]))
  {
    hide Sound, Owned, Routing.Inv, Routing.Legal, Routing.Run;
    RunOne(net, Routing.FakeUp(i));
    assert Fakes(Step(t, s, Accept(i)).ws) == Fakes(s.ws)[i := Some(s.hci.last)];
  }

  lemma CommandStep(t: Tables, s: Sys, data: seq<byte>, net: Routing.Net)
    requires Inv(t, s) && Enabled(t, s, Command(data)) && Corresponds(s, net) && !Handled(s, data)
    requires Routing.Inv(net) && Routing.Legal(net, [Routing.FromHost(data)])
    ensures Corresponds(HostCommand(s, data), Routing.Run(net, [Routing.FromHost(data)]))
  {
    hide Sound, Owned, Routing.Inv, Routing.Legal, Routing.Run, WordAt, HciState.CommandState;
    RunOne(net, Routing.FromHost(data));
    if WordAt(data, 0) == HciState.CMD_RESET {
      OwnedReset(s.ws, s.devs, 0);
      assert Fakes(ResetFrom(s.ws, s.devs).0) == Fill(|s.ws|, None);
    }
  }

  lemma AclStep(t: Tables, s: Sys, packet: seq<byte>, net: Routing.Net)
    requires Inv(t, s) && Enabled(t, s, AclOut(packet)) && Corresponds(s, net)
    requires Routing.Inv(net) && Routing.Legal(net, Trace(t, s, AclOut(packet)))
    ensures Corresponds(HostData(t, s, packet), Routing.Run(net, Trace(t, s, AclOut(packet))))
  {
    hide Sound, Owned, PacketExpected, OnPacket, WordAt, Routing.Inv;
    match Receiver(s.ws, packet)
    case None =>
    case Some(i) =>
      PacketFrame(t, s.ws[i], packet[4..]);
      var s' := HostData(t, s, packet);
      if s'.ws[i].Connected() {
        assert Fakes(s'.ws) == Fakes(s.ws);
      } else {
        WiimoteDown(s, s', net, i);
      }
  }

  /** The event of the dongle changes the tables as the numbering says. */
  lemma ControllerStep(t: Tables, s: Sys, data: seq<byte>, net: Routing.Net)
    requires Inv(t, s) && Enabled(t, s, FromController(data)) && Corresponds(s, net)
    requires Routing.Inv(net) && Routing.Legal(net, [Routing.FromController(data)])
    ensures Corresponds(Step(t, s, FromController(data)), Routing.Run(net, [Routing.FromController(data)]))
  {
    hide Sound, Owned, Routing.Inv, Routing.Legal, Routing.Run, HciState.EventState;
    RunOne(net, Routing.FromController(data));
    Routing.StepFollowsHandler(net, data);
    ControllerLeavesFakes(net, data);
  }

  lemma ControllerLeavesFakes(net: Routing.Net, data: seq<byte>)
    requires Routing.Inv(net) && Routing.Enabled(net, Routing.FromController(data))
    ensures Routing.Step(net, Routing.FromController(data)).fakes == net.fakes
  {
  }

  lemma RemovedStep(t: Tables, s: Sys, d: nat, net: Routing.Net)
    requires Inv(t, s) && Corresponds(s, net)
    requires Routing.Inv(net) && Routing.Legal(net, Trace(t, s, GamepadRemoved(d)))
    ensures Corresponds(Removed(s, d), Routing.Run(net, Trace(t, s, GamepadRemoved(d))))
  {
    hide Sound, Routing.Inv;
    match InputDevices.FindDevice(s.devs, d)
    case None =>
    case Some(k) =>
      if s.devs[k].wiimote.Some? {
        WiimoteDown(s, Removed(s, d), net, s.devs[k].wiimote.value);
      }
  }

  /** Each step of the system is a short run of the numbering. */
  lemma StepRefinesRouting(t: Tables, s: Sys, e: Event, net: Routing.Net)
    requires Inv(t, s) && Enabled(t, s, e) && Corresponds(s, net)
    requires Routing.Inv(net) && Routing.Legal(net, Trace(t, s, e))
    ensures Corresponds(Step(t, s, e), Routing.Run(net, Trace(t, s, e)))
  {
    hide Sound, Owned, Routing.Inv, WordAt;
    match e
    case GamepadAdded(_) =>
    case GamepadRemoved(d) => RemovedStep(t, s, d, net);
    case Timer(_, _, _) => TimerStep(t, s, e, net);
    case FromController(data) => ControllerStep(t, s, data, net);
    case Accept(i) => AcceptStep(t, s, i, net);
    case Reject(i) => WiimoteDown(s, DisconnectOne(s, i), net, i);
    case Command(data) =>
      if !Handled(s, data) {
        CommandStep(t, s, data, net);
      } else if Answering(s, data).Some? && WordAt(data, 0) == HciState.CMD_DISCONNECT {
        WiimoteDown(s, HostCommand(s, data), net, Answering(s, data).value);
      }
    case AclOut(packet) => AclStep(t, s, packet, net);
  }

  // ---------------------------------------------------------------- runs

  /** The run respects the protocol, and new handles are fresh, step by step. */
  ghost predicate Named(t: Tables, s: Sys, net: Routing.Net, es: seq<Event>)
    requires Inv(t, s) && Routing.Inv(net) && Corresponds(s, net)
    decreases |es|
  {
    es == [] ||
    (Enabled(t, s, es[0]) && Routing.Legal(net, Trace(t, s, es[0]))
     && (StepKeepsInv(t, s, es[0]); StepRefinesRouting(t, s, es[0], net);
         Named(t, Step(t, s, es[0]), Routing.Run(net, Trace(t, s, es[0])), es[1..])))
  }

  /** The numbering after the run. */
  ghost function NetAfter(t: Tables, s: Sys, net: Routing.Net, es: seq<Event>): Routing.Net
    requires Inv(t, s) && Routing.Inv(net) && Corresponds(s, net) && Named(t, s, net, es)
    decreases |es|
  {
    if es == [] then net
    else
      StepKeepsInv(t, s, es[0]);
      StepRefinesRouting(t, s, es[0], net);
      NetAfter(t, Step(t, s, es[0]), Routing.Run(net, Trace(t, s, es[0])), es[1..])
  }

  lemma {:induction false} RunRefinesRouting(t: Tables, s: Sys, net: Routing.Net, es: seq<Event>)
    requires Inv(t, s) && Routing.Inv(net) && Corresponds(s, net) && Named(t, s, net, es)
    ensures Legal(t, s, es) && Inv(t, After(t, s, es))
    ensures Routing.Inv(NetAfter(t, s, net, es)) && Corresponds(After(t, s, es), NetAfter(t, s, net, es))
    decreases |es|
  {
    hide Sound, Owned, Enabled, Step, Routing.Inv, Routing.Legal, Routing.Run, Trace, Corresponds;
    if es != [] {
      StepKeepsInv(t, s, es[0]);
      StepRefinesRouting(t, s, es[0], net);
      RunRefinesRouting(t, Step(t, s, es[0]), Routing.Run(net, Trace(t, s, es[0])), es[1..]);
    }
  }

  lemma {:induction false} ReceiverIsFirst(ws: seq<Wiimote>, h: word, i: nat)
    requires i <= |ws|
    ensures FakeFor(ws, h, i) ==
              match Routing.FirstFakeWith(Fakes(ws)[i..], h) case Some(j) => Some(i + j) case None => None
    decreases |ws| - i
  {
    if i < |ws| {
      assert Fakes(ws)[i..][1..] == Fakes(ws)[i + 1..];
      ReceiverIsFirst(ws, h, i + 1);
    }
  }

  /** After any run, ACL data for a live handle goes to exactly one place: the fake Wiimote of
      that handle takes it, and the dongle knows nothing of the handle; or no fake Wiimote has the
      handle, and the dongle gets the packet under its own name of that connection. */
  lemma HostDataHasOneReceiver(t: Tables, s: Sys, net: Routing.Net, es: seq<Event>, packet: seq<byte>, n: nat)
    requires Inv(t, s) && Routing.Inv(net) && Corresponds(s, net) && Named(t, s, net, es)
    requires var r := NetAfter(t, s, net, es);
             |packet| >= 4 && Routing.Live(r, n) && HciState.ConHandle(WordAt(packet, 0)) == HciState.HandleOf(n)
    ensures Legal(t, s, es)
    ensures var r, r' := After(t, s, es), NetAfter(t, s, net, es);
            var phys := HciState.GetPhys(r.hci.table, HciState.HandleOf(n));
            && (Receiver(r.ws, packet).Some? <==> phys.None?)
            && (n in r'.conns ==>
                  phys == Some(r'.conns[n]) && HciState.ConHandle(WordAt(HciState.AclOut(r.hci, packet), 0)) == r'.conns[n])
            && forall i :: 0 <= i < |r.ws| && r.ws[i].Connected() && r.ws[i].link.conHandle == HciState.HandleOf(n) ==>
                 Receiver(r.ws, packet) == Some(i)
  {
    hide Sound, Owned, Enabled, Step, WordAt, HciState.AclOut, Named, NetAfter, After, Legal, HciState.HandleOf;
    RunRefinesRouting(t, s, net, es);
    OneReceiver(After(t, s, es), NetAfter(t, s, net, es), packet, n);
  }

  lemma OneReceiver(s: Sys, net: Routing.Net, packet: seq<byte>, n: nat)
    requires Routing.Inv(net) && Corresponds(s, net) && |packet| >= 4 && Routing.Live(net, n)
    requires HciState.ConHandle(WordAt(packet, 0)) == HciState.HandleOf(n)
    ensures var phys := HciState.GetPhys(s.hci.table, HciState.HandleOf(n));
            && (Receiver(s.ws, packet).Some? <==> phys.None?)
            && (n in net.conns ==>
                  phys == Some(net.conns[n]) && HciState.ConHandle(WordAt(HciState.AclOut(s.hci, packet), 0)) == net.conns[n])
    ensures forall i :: 0 <= i < |s.ws| && s.ws[i].Connected() && s.ws[i].link.conHandle == HciState.HandleOf(n) ==>
              Receiver(s.ws, packet) == Some(i)
  {
    hide WordAt, HciState.AclOut, HciState.HandleOf;
    var h := HciState.HandleOf(n);
    Routing.RoutingIsUnambiguous(net, packet, n);
    ReceiverIsFirst(s.ws, h, 0);
    assert Fakes(s.ws)[0..] == Fakes(s.ws);
    if n in net.conns {
      Routing.TableRenames(net, n);
    } else {
      var i :| 0 <= i < |net.fakes| && net.fakes[i].Some? && net.numbers[i] == n;
      assert Routing.RouteAcl(net, packet) == Routing.ToFake(i);
    }
    Distinct(s, net);
    forall i | 0 <= i < |s.ws| && s.ws[i].Connected() && s.ws[i].link.conHandle == h
      ensures Receiver(s.ws, packet) == Some(i)
    {
      assert FakeFor(s.ws, h).Some?;
    }
  }

  /** Connected fake Wiimotes have different handles. */
  lemma Distinct(s: Sys, net: Routing.Net)
    requires Routing.Inv(net) && Corresponds(s, net)
    ensures Packets.DistinctHandles(s.ws) && |net.numbers| == |s.ws|
  {
    forall i, j | 0 <= i < j < |s.ws| && s.ws[i].Connected() && s.ws[j].Connected()
      ensures s.ws[i].link.conHandle != s.ws[j].link.conHandle
    {
      assert net.fakes[i].Some? && net.fakes[j].Some?;
      assert Routing.Live(net, net.numbers[i]) && Routing.Live(net, net.numbers[j]);
    }
  }

  /** A command about live connection n: the dongle gets those about its own connections, under
      its own name; a fake Wiimote answers those it knows itself, if its replies can be injected; any
      other command that carries a fake Wiimote's handle fails the tracker's assertion. */
  lemma CommandHasOneAnswer(s: Sys, net: Routing.Net, data: seq<byte>, n: nat, injected: bool)
    requires Routing.Inv(net) && Corresponds(s, net) && Routing.Live(net, n) && HciState.CommandWellFormed(data)
    requires WordAt(data, 0) in HciState.HANDLE_COMMANDS && WordAt(data, 3) == HciState.HandleOf(n)
    ensures n in net.conns ==>
              && !Handled(s, data) && CommandFine(s, data, injected)
              && WordAt(HciState.CommandData(s.hci, data), 3) == net.conns[n]
    ensures forall i :: 0 <= i < |s.ws| && s.ws[i].Connected() && net.numbers[i] == n ==>
              if WordAt(data, 0) in FAKE_COMMANDS
              then Answering(s, data) == Some(i) && (CommandFine(s, data, injected) <==> injected)
              else !Handled(s, data) && !CommandFine(s, data, injected)
    ensures Answering(s, data).Some? <==> n !in net.conns && WordAt(data, 0) in FAKE_COMMANDS
    ensures CommandFine(s, data, injected) <==> n in net.conns || (WordAt(data, 0) in FAKE_COMMANDS && injected)
  {
    hide WordAt, HciState.HandleOf, HciState.HANDLE_COMMANDS, HciState.ADDRESS_COMMANDS, FAKE_COMMANDS, FakeAt,
         Routing.Inv, HciState.GetPhys, HciState.CommandData;
    OpcodesApart();
    if n in net.conns {
      Routing.TableRenames(net, n);
      HciState.CommandDataHandle(s.hci, data);
      RealIsNoFake(s, net, n);
    } else {
      FakeIsAlone(s, net, n);
    }
    Distinct(s, net);
    forall i | 0 <= i < |s.ws| && s.ws[i].Connected() && net.numbers[i] == n
      ensures s.ws[i].link.conHandle == HciState.HandleOf(n) && n !in net.conns
    {
      NumberedFake(s, net, i);
    }
  }

  lemma RealIsNoFake(s: Sys, net: Routing.Net, n: nat)
    requires Routing.Inv(net) && Corresponds(s, net) && n in net.conns
    ensures forall i :: 0 <= i < |s.ws| && s.ws[i].Connected() ==> s.ws[i].link.conHandle != HciState.HandleOf(n)
  {
    hide HciState.HandleOf;
    forall i | 0 <= i < |s.ws| && s.ws[i].Connected() ensures s.ws[i].link.conHandle != HciState.HandleOf(n) {
      assert net.fakes[i].Some?;
      assert Routing.Live(net, net.numbers[i]);
    }
  }

  lemma NumberedFake(s: Sys, net: Routing.Net, i: nat)
    requires Routing.Inv(net) && Corresponds(s, net) && i < |s.ws| && s.ws[i].Connected()
    ensures s.ws[i].link.conHandle == HciState.HandleOf(net.numbers[i]) && net.numbers[i] !in net.conns
  {
    assert net.fakes[i].Some?;
  }

  /** The handle of a fake Wiimote is carried by one Wiimote and not by the table. */
  lemma FakeIsAlone(s: Sys, net: Routing.Net, n: nat)
    requires Routing.Inv(net) && Corresponds(s, net) && Routing.Live(net, n) && n !in net.conns
    ensures HciState.GetPhys(s.hci.table, HciState.HandleOf(n)).None?
    ensures exists i :: 0 <= i < |s.ws| && s.ws[i].Connected() && s.ws[i].link.conHandle == HciState.HandleOf(n)
  {
    hide HciState.HandleOf;
    var i :| 0 <= i < |net.fakes| && net.fakes[i].Some? && net.numbers[i] == n;
    assert s.ws[i].Connected();
    Routing.NamedIffLive(net, HciState.HandleOf(n));
    assert forall m :: m in net.conns ==> Routing.Live(net, m);
  }

  /** The command asks a fake Wiimote: it carries the address of one, or the handle of a connected
      one and an opcode that the manager knows. */
  ghost predicate AsksFake(net: Routing.Net, data: seq<byte>)
    requires HciState.CommandWellFormed(data)
  {
    FakeCommandsCarryHandles();
    ByAddress(data).Some?
    || (WordAt(data, 0) in FAKE_COMMANDS
        && exists n: nat :: Routing.Live(net, n) && n !in net.conns && HciState.HandleOf(n) == WordAt(data, 3))
  }

  /** For every well-formed command: no assertion of the manager or the tracker fails exactly if it
      is not a request for the link key of a fake Wiimote, the tracker supports it, its handle, if it
      carries one, is that of a live connection which can be asked (any of the dongle's, or a fake
      Wiimote that knows the command), and the replies of a fake Wiimote that is asked can be
      injected. */
  lemma CommandSucceedsIff(s: Sys, net: Routing.Net, data: seq<byte>, injected: bool)
    requires Routing.Inv(net) && Corresponds(s, net) && HciState.CommandWellFormed(data)
    ensures Handled(s, data) <==> AsksFake(net, data)
    ensures CommandFine(s, data, injected) <==>
            && !StoredKeyOfFake(data) && !HciState.Unsupported(WordAt(data, 0))
            && (WordAt(data, 0) in HciState.HANDLE_COMMANDS ==>
                  exists n: nat :: Routing.Live(net, n) && HciState.HandleOf(n) == WordAt(data, 3)
                                   && (n in net.conns || WordAt(data, 0) in FAKE_COMMANDS))
            && (AsksFake(net, data) && WordAt(data, 0) != HciState.CMD_REJECT_CON ==> injected)
  {
    hide WordAt, HciState.HandleOf, Routing.Inv, HciState.HANDLE_COMMANDS, HciState.ADDRESS_COMMANDS, FAKE_COMMANDS,
         FakeAt, Corresponds;
    OpcodesApart();
    if WordAt(data, 0) in HciState.HANDLE_COMMANDS {
      if n: nat :| Routing.Live(net, n) && HciState.HandleOf(n) == WordAt(data, 3) {
        CommandHasOneAnswer(s, net, data, n, injected);
        OneName(net, data, n);
      } else {
        NobodyNamed(s, net, WordAt(data, 3));
      }
    }
  }

  lemma OneName(net: Routing.Net, data: seq<byte>, n: nat)
    requires Routing.Inv(net) && Routing.Live(net, n) && |data| >= 5 && HciState.HandleOf(n) == WordAt(data, 3)
    ensures forall m: nat :: Routing.Live(net, m) && HciState.HandleOf(m) == WordAt(data, 3) ==> m == n
  {
    hide HciState.HandleOf, WordAt;
  }

  lemma NobodyNamed(s: Sys, net: Routing.Net, h: word)
    requires Routing.Inv(net) && Corresponds(s, net)
    requires forall n: nat :: Routing.Live(net, n) ==> HciState.HandleOf(n) != h
    ensures HciState.GetPhys(s.hci.table, h).None? && FakeFor(s.ws, h).None?
  {
    hide HciState.HandleOf;
    Routing.NamedIffLive(net, h);
    assert forall m :: m in net.conns ==> Routing.Live(net, m);
    forall i | 0 <= i < |s.ws| && s.ws[i].Connected() ensures s.ws[i].link.conHandle != h {
      assert net.fakes[i].Some?;
      assert Routing.Live(net, net.numbers[i]);
    }
  }

  /** Leaving sniff mode, for example, is a command no connected fake Wiimote survives. */
  lemma ExitSniffModeFails(s: Sys, net: Routing.Net, i: nat, injected: bool)
    requires Routing.Inv(net) && Corresponds(s, net) && i < |s.ws| && s.ws[i].Connected()
    ensures var data := Le16(CMD_EXIT_SNIFF_MODE) + [2] + Le16(s.ws[i].link.conHandle);
            && HciState.CommandWellFormed(data) && !Handled(s, data) && !CommandFine(s, data, injected)
  {
    hide FromLe16, Low, High, HciState.HandleOf, Le16;
    var h := s.ws[i].link.conHandle;
    var data := Le16(CMD_EXIT_SNIFF_MODE) + [2] + Le16(h);
    Le16RoundTrip(CMD_EXIT_SNIFF_MODE);
    Le16RoundTrip(h);
    assert data[0] == Le16(CMD_EXIT_SNIFF_MODE)[0] && data[1] == Le16(CMD_EXIT_SNIFF_MODE)[1];
    assert data[3] == Le16(h)[0] && data[4] == Le16(h)[1];
    assert CMD_EXIT_SNIFF_MODE in HciState.HANDLE_COMMANDS && CMD_EXIT_SNIFF_MODE !in FAKE_COMMANDS;
    assert net.fakes[i].Some? && Routing.Live(net, net.numbers[i]);
    CommandHasOneAnswer(s, net, data, net.numbers[i], injected);
  }

  /** The request for one stored link key, with the address of fake Wiimote i. */
  function StoredKeyRequest(i: nat): seq<byte>
    requires i < |FAKE_ADDRESSES|
  {
    Le16(HciState.CMD_READ_STORED_LINK_KEY) + [7] + FAKE_ADDRESSES[i] + [0]
  }

  /** In every state it stops the program. */
  lemma StoredKeyRequestFails(s: Sys, i: nat, injected: bool)
    requires i < |FAKE_ADDRESSES|
    ensures var data := StoredKeyRequest(i);
            HciState.CommandWellFormed(data) && StoredKeyOfFake(data) && !CommandFine(s, data, injected)
    ensures StoredKeyRequest(0) == [0x0D, 0x0C, 7, 0xFE, 0xED, 0xBA, 0xDF, 0x00, 0xD0, 0]
  {
    hide FromLe16;
    var data := StoredKeyRequest(i);
    Le16RoundTrip(HciState.CMD_READ_STORED_LINK_KEY);
    OpcodesApart();
    assert data[0] == Le16(HciState.CMD_READ_STORED_LINK_KEY)[0] && data[1] == Le16(HciState.CMD_READ_STORED_LINK_KEY)[1];
    assert data[3..9] == FAKE_ADDRESSES[i];
  }

  const CMD_EXIT_SNIFF_MODE: word := 0x0804

  /** Wiimote i keeps its connection throughout the run. */
  ghost predicate Connected(t: Tables, s: Sys, es: seq<Event>, i: nat, h: word)
    requires t.Valid() && Legal(t, s, es)
    decreases |es|
  {
    && i < |s.ws| && s.ws[i].Connected() && s.ws[i].link.conHandle == h
    && (es != [] ==> Connected(t, Step(t, s, es[0]), es[1..], i, h))
  }

  /** As long as new handles are fresh, the reports for a handle are about one Wiimote only. */
  lemma {:induction false} HandleStaysUnique(t: Tables, s: Sys, net: Routing.Net, es: seq<Event>, i: nat, h: word)
    requires Inv(t, s) && Routing.Inv(net) && Corresponds(s, net) && Named(t, s, net, es)
    requires Legal(t, s, es) && Connected(t, s, es, i, h)
    ensures Packets.Stays(t, s, es, i, h)
    decreases |es|
  {
    hide Sound, Owned, Enabled, Step, Routing.Inv, Routing.Legal, Routing.Run, Trace, Corresponds;
    Distinct(s, net);
    if es != [] {
      StepKeepsInv(t, s, es[0]);
      StepRefinesRouting(t, s, es[0], net);
      HandleStaysUnique(t, Step(t, s, es[0]), Routing.Run(net, Trace(t, s, es[0])), es[1..], i, h);
    }
  }

  /** Boot satisfies the invariants, if the registers have the right sizes. */
  lemma BootState(t: Tables, ws: seq<Wiimote>)
    requires t.Valid() && |ws| == HciState.MAX_FAKE_WIIMOTES
    requires forall i :: 0 <= i < |ws| ==> !ws[i].active && Registers.Shaped(ws[i].pad.mem)
    ensures Inv(t, Boot(ws)) && Routing.Inv(Routing.Boot()) && Corresponds(Boot(ws), Routing.Boot())
  {
    assert Fakes(ws) == Fill(|ws|, None);
  }
}
