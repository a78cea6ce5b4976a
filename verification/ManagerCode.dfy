/**
 * The code of source/fake_wiimote_mgr.c and its callers: the loops over the fake Wiimotes and the
 * gamepads. Each method is proved to do what the step functions of module Manager say.
 */
module ManagerCode {
  import opened Bytes
  import opened FakeWiimote
  import opened Crypto
  import opened Manager
  import ChannelIds
  import HciState
  import Linking
  import InputDevices
  import Registers

  /** What becomes of a command: it may also stop the program. */
  datatype Outcome = Answered | Forwarded | AssertionFailed

  class FakeWiimotes {
    const tables: Tables
    const wiimotes: seq<Device>
    const devices: InputDevices.Devices
    const tracker: HciState.HciTracker
    const cids: ChannelIds.CidGenerator

    constructor (tables: Tables, wiimotes: seq<Device>, devices: InputDevices.Devices, tracker: HciState.HciTracker,
                 cids: ChannelIds.CidGenerator)
      ensures this.tables == tables && this.wiimotes == wiimotes
      ensures this.devices == devices && this.tracker == tracker && this.cids == cids
    {
      this.tables, this.wiimotes, this.devices, this.tracker := tables, wiimotes, devices, tracker;
      this.cids := cids;
    }

    /** The objects are different ones. */
    ghost predicate Valid() {
      && tables.Valid()
      && (forall i :: 0 <= i < |wiimotes| ==> wiimotes[i].tables == tables)
      && (forall i, j :: 0 <= i < j < |wiimotes| ==> wiimotes[i] != wiimotes[j])
      && devices.slots as object != tracker.table as object
    }

    ghost function Ws(): (r: seq<Wiimote>)
      reads wiimotes
      ensures |r| == |wiimotes|
    {
      seq(|wiimotes|, i requires 0 <= i < |wiimotes| reads wiimotes => wiimotes[i].View())
    }

    ghost function View(): Sys
      reads wiimotes, devices.slots, tracker, tracker.table, cids
    {
      Sys(tracker.View(), Ws(), devices.slots[..], cids.count)
    }

    lemma WsAre(ws: seq<Wiimote>)
      requires |ws| == |wiimotes| && forall i :: 0 <= i < |ws| ==> wiimotes[i].View() == ws[i]
      ensures Ws() == ws
    {
    }

    lemma DevicesOf()
      ensures forall i :: 0 <= i < |wiimotes| ==> wiimotes[i].inputDevice == Ws()[i].inputDevice
    {
    }

    lemma Actives()
      ensures forall i :: 0 <= i < |wiimotes| ==> wiimotes[i].active == Ws()[i].active
    {
    }

    // -- lookups

    method LookupFake(h: word) returns (r: Option<nat>)
      ensures r == FakeFor(Ws(), h)
    {
      var i := 0;
      while i < |wiimotes|
        invariant 0 <= i <= |wiimotes|
        invariant FakeFor(Ws(), h) == FakeFor(Ws(), h, i)
      {
        var w := wiimotes[i];
        if w.active && w.baseband == Linking.BasebandComplete && w.conHandle == h {
          return Some(i);
        }
        i := i + 1;
      }
      return None;
    }

    // -- the timer

    method CheckAssign(calibration: seq<byte>)
      requires Valid()
      modifies wiimotes, devices.slots
      ensures (Ws(), devices.slots[..]) == AssignFrom(old(Ws()), old(devices.slots[..]), calibration)
    {
      hide InitState, InputDevices.FindUnassigned, Activated, InputDevices.Assigned, Linking.InitLink, Device.View;
      var i := 0;
      while i < |wiimotes|
        invariant 0 <= i <= |wiimotes|
        invariant AssignFrom(Ws(), devices.slots[..], calibration, i)
               == AssignFrom(old(Ws()), old(devices.slots[..]), calibration)
      {
        Actives();
        var k := devices.GetUnassigned();
        if !wiimotes[i].active && k.Some? {
          ghost var ws := Ws();
          devices.Assign(k.value, i);
          Activate(i, k.value, calibration);
          WsAre(ws[i := Activated(ws[i], k.value, calibration)]);
        }
        i := i + 1;
      }
    }

    method Activate(i: nat, slot: nat, calibration: seq<byte>)
      requires Valid() && i < |wiimotes|
      modifies wiimotes[i]
      ensures wiimotes[i].View() == Activated(old(wiimotes[i].View()), slot, calibration)
    {
      hide Linking.InitLink;
      wiimotes[i].Init(slot, calibration);
      wiimotes[i].active := true;
    }

    method TickWiimotes(ticks: seq<TickInput>)
      requires Valid() && TicksExpected(tables, Ws(), ticks) && cids.Valid()
      modifies wiimotes, cids
      ensures Ws() == TickAll(tables, tracker.View(), old(Ws()), ticks, old(cids.count))
      ensures cids.Valid() && cids.count == CidsUpTo(old(Ws()), |wiimotes|, old(cids.count))
    {
      hide TickExpected, TickOne, Linking.Opens, Device.View, TickAll;
      ghost var ws, hci, count := Ws(), tracker.View(), cids.count;
      ghost var ticked := TickAll(tables, hci, ws, ticks, count);
      var i := 0;
      while i < |wiimotes|
        invariant 0 <= i <= |wiimotes| && tracker.View() == hci
        invariant cids.Valid() && cids.count == CidsUpTo(ws, i, count)
        invariant forall j :: 0 <= j < i ==> wiimotes[j].View() == ticked[j]
        invariant forall j :: i <= j < |wiimotes| ==> wiimotes[j].View() == ws[j]
      {
        TickAllAt(tables, hci, ws, ticks, count, i);
        TickWiimote(i, ticks[i]);
        i := i + 1;
      }
      WsAre(ticked);
    }

    static lemma TickAllAt(t: Tables, hci: HciState.Hci, ws: seq<Wiimote>, ticks: seq<TickInput>, count: nat, i: nat)
      requires t.Valid() && TicksExpected(t, ws, ticks) && i < |ws|
      ensures ws[i].active ==> TickExpected(t, ws[i], ticks[i].input)
      ensures ws[i].active && Linking.Opens(ws[i].link) ==> ticks[i].ok.connect
      ensures TickAll(t, hci, ws, ticks, count)[i] == TickOne(t, hci, ws[i], ticks[i], CidsUpTo(ws, i, count))
    {
      hide TickExpected, TickOne;
    }

    method TickWiimote(i: nat, tick: TickInput)
      requires Valid() && cids.Valid() && i < |wiimotes|
      requires wiimotes[i].View().active ==> TickExpected(tables, wiimotes[i].View(), tick.input)
      requires wiimotes[i].View().active && Linking.Opens(wiimotes[i].View().link) ==> tick.ok.connect
      modifies wiimotes[i], cids
      ensures wiimotes[i].View() == TickOne(tables, tracker.View(), old(wiimotes[i].View()), tick, old(cids.count))
      ensures cids.Valid()
      ensures var w := old(wiimotes[i].View());
              cids.count == old(cids.count) + if w.active && Linking.Opens(w.link) then 1 else 0
    {
      hide TickExpected, OnTick, TickEnv, Linking.Opens;
      if wiimotes[i].active {
        var canRequest := tracker.scanEnable & PAGE_SCAN_ENABLE != 0;
        var effects := wiimotes[i].Tick(canRequest, tick.ok, cids, tick.input);
      }
    }

    /** fake_wiimote_mgr_send_event_number_of_completed_packets */
    method CollectCompleted() returns (event: Option<seq<Entry>>)
      requires Valid()
      modifies wiimotes
      ensures event == CompletedEvent(old(Ws())) && Ws() == Cleared(old(Ws()))
    {
      hide Entries, Total, ClearedOne, Device.View;
      ghost var ws := Ws();
      var entries: seq<Entry> := [];
      var total := 0;
      NothingCollected(ws[..0]);
      var i := 0;
      while i < |wiimotes|
        invariant 0 <= i <= |wiimotes|
        invariant forall j :: 0 <= j < |wiimotes| ==> wiimotes[j].View() == if j < i then ClearedOne(ws[j]) else ws[j]
        invariant entries == Entries(ws[..i]) && total == Total(ws[..i]) % COUNTER
      {
        PrefixSums(ws, i);
        var entry, count := TakeCompleted(i);
        entries, total := entries + entry, (total + count) % COUNTER;
        i := i + 1;
      }
      assert ws[..|wiimotes|] == ws;
      WsAre(Cleared(ws));
      return if total > 0 then Some(entries) else None;
    }

    /** The entry and the count of one Wiimote, whose counter is cleared. */
    method TakeCompleted(i: nat) returns (entry: seq<Entry>, count: nat)
      requires i < |wiimotes|
      modifies wiimotes[i]
      ensures wiimotes[i].View() == ClearedOne(old(wiimotes[i].View()))
      ensures var w := old(wiimotes[i].View());
              && entry == (if w.Connected() then [Entry(w.link.conHandle, w.completed % 0x1_0000)] else [])
              && count == (if w.Connected() then w.completed else 0)
    {
      var w := wiimotes[i];
      if w.active && w.baseband == Linking.BasebandComplete {
        entry, count := [Entry(w.conHandle, w.completed % 0x1_0000)], w.completed;
        w.completed := 0;
      } else {
        entry, count := [], 0;
      }
    }

    static lemma NothingCollected(ws: seq<Wiimote>)
      requires ws == []
      ensures Entries(ws) == [] && Total(ws) == 0
    {
    }

    static lemma PrefixSums(ws: seq<Wiimote>, i: nat)
      requires i < |ws|
      ensures Entries(ws[..i + 1]) ==
                Entries(ws[..i]) + if ws[i].Connected() then [Entry(ws[i].link.conHandle, ws[i].completed % 0x1_0000)] else []
      ensures !ws[i].Connected() ==> Entries(ws[..i + 1]) == Entries(ws[..i])
      ensures Total(ws[..i + 1]) == Total(ws[..i]) + if ws[i].Connected() then ws[i].completed else 0
    {
      assert ws[..i + 1][..i] == ws[..i];
    }

    /** input_devices_tick and fake_wiimote_mgr_tick_devices; nothing depends on whether the event
        that is injected can be sent. */
    method HandleTimer(ticks: seq<TickInput>, calibration: seq<byte>, sent: bool) returns (event: Option<seq<Entry>>)
      requires Valid() && Enabled(tables, View(), Timer(ticks, calibration, sent)) && cids.Valid()
      modifies wiimotes, devices.slots, cids
      ensures cids.Valid()
      ensures View() == Step(tables, old(View()), Timer(ticks, calibration, sent))
      ensures event == CompletedEvent(TimerTicked(tables, old(View()), Timer(ticks, calibration, sent)))
    {
      hide TickAll, TicksExpected, AssignFrom, CompletedEvent;
      devices.Tick();
      if tracker.scanEnable & PAGE_SCAN_ENABLE != 0 {
        CheckAssign(calibration);
      }
      TickWiimotes(ticks);
      event := CollectCompleted();
    }

    // -- disconnections

    /** The releases that a Wiimote asked for. */
    method Release(effects: seq<Effect>)
      modifies devices.slots
      ensures devices.slots[..] == CarryOut(old(devices.slots[..]), effects)
    {
      var i := 0;
      while i < |effects|
        invariant 0 <= i <= |effects|
        invariant CarryOut(devices.slots[..], effects[i..]) == CarryOut(old(devices.slots[..]), effects)
      {
        assert effects[i..][1..] == effects[i + 1..];
        match effects[i] {
          case ReleaseDevice(k) =>
            if k < devices.slots.Length {
              devices.Release(k);
            }
          case _ =>
        }
        i := i + 1;
      }
    }

    method DisconnectWiimote(i: nat)
      requires Valid() && i < |wiimotes|
      modifies wiimotes[i], devices.slots
      ensures View() == DisconnectOne(old(View()), i)
    {
      ghost var ws := Ws();
      var effects := wiimotes[i].DisconnectNow();
      Release(effects);
      WsAre(ws[i := Disconnect(ws[i]).0]);
    }

    /** input_device_handle_removed */
    method HandleRemoved(d: nat)
      requires Valid() && Owned(Ws(), devices.slots[..])
      modifies wiimotes, devices.slots
      ensures View() == Removed(old(View()), d)
    {
      hide InputDevices.FindDevice, Disconnect;
      ghost var s := View();
      var k := devices.FromGamepad(d);
      if k.None? {
        return;
      }
      var owner := devices.slots[k.value].wiimote;
      if owner.Some? {
        LetGo(owner.value);
        WsAre(s.ws[owner.value := Disconnect(s.ws[owner.value].(inputDevice := None)).0]);
      }
      devices.Unplug(k.value);
    }

    /** The Wiimote loses its gamepad before it disconnects. */
    method LetGo(i: nat)
      requires i < |wiimotes|
      modifies wiimotes[i]
      ensures wiimotes[i].View() == Disconnect(old(wiimotes[i].View()).(inputDevice := None)).0
    {
      wiimotes[i].inputDevice := None;
      var effects := wiimotes[i].DisconnectNow();
    }

    /** The HCI_CMD_RESET case of the manager. */
    method ResetWiimotes()
      requires Valid()
      modifies wiimotes, devices.slots
      ensures (Ws(), devices.slots[..]) == ResetFrom(old(Ws()), old(devices.slots[..]))
    {
      hide Device.View;
      var i := 0;
      while i < |wiimotes|
        invariant 0 <= i <= |wiimotes|
        invariant ResetFrom(Ws(), devices.slots[..], i) == ResetFrom(old(Ws()), old(devices.slots[..]))
      {
        Actives();
        DevicesOf();
        if wiimotes[i].active {
          ghost var ws := Ws();
          Deactivate(i);
          WsAre(ws[i := ws[i].(active := false)]);
        }
        i := i + 1;
      }
    }

    method Deactivate(i: nat)
      requires i < |wiimotes|
      modifies wiimotes[i], devices.slots
      ensures wiimotes[i].View() == old(wiimotes[i].View()).(active := false)
      ensures var (device, slots) := (old(wiimotes[i].inputDevice), old(devices.slots[..]));
              devices.slots[..] == if device.Some? && device.value < |slots|
                                   then InputDevices.Released(slots, device.value) else slots
    {
      var device := wiimotes[i].inputDevice;
      if device.Some? && device.value < devices.slots.Length {
        devices.Release(device.value);
      }
      wiimotes[i].active := false;
    }

    // -- the host

    method HandleAccept(i: nat)
      requires Valid() && Enabled(tables, View(), Accept(i))
      modifies wiimotes[i], tracker`last
      ensures View() == Step(tables, old(View()), Accept(i))
    {
      ghost var ws := Ws();
      var handle := tracker.VirtAlloc();
      wiimotes[i].AcceptConnection(handle);
      WsAre(ws[i := OnAccept(ws[i], handle)]);
    }

    method HandleReject(i: nat)
      requires Valid() && Enabled(tables, View(), Reject(i))
      modifies wiimotes[i], devices.slots
      ensures View() == Step(tables, old(View()), Reject(i))
    {
      DisconnectWiimote(i);
    }

    method LookupAddress(data: array<byte>, at: nat) returns (r: Option<nat>)
      requires at + 6 <= data.Length
      ensures r == FakeAt(data[at..at + 6])
    {
      ghost var address := data[at..at + 6];
      var i := 0;
      while i < |FAKE_ADDRESSES|
        invariant 0 <= i <= |FAKE_ADDRESSES|
        invariant FakeAt(address) == FakeAt(address, i)
      {
        if data[at..at + 6] == FAKE_ADDRESSES[i] {
          return Some(i);
        }
        i := i + 1;
      }
      return None;
    }

    /** hci_state_handle_hci_cmd_from_host; injected says whether the replies of a fake Wiimote can be
        injected. */
    method HandleCommand(data: array<byte>, injected: bool) returns (outcome: Outcome)
      requires Valid() && HciState.CommandWellFormed(data[..]) && |wiimotes| == |FAKE_ADDRESSES|
      requires !EventOf(data[..]).Command? ==> Enabled(tables, View(), EventOf(data[..]))
      requires data as object != tracker.table as object && data as object != devices.slots as object
      modifies wiimotes, devices.slots, tracker, tracker.table, data
      ensures outcome ==
                if !CommandFine(old(View()), old(data[..]), injected) then AssertionFailed
                else if Handled(old(View()), old(data[..])) then Answered
                else Forwarded
      ensures outcome == AssertionFailed ==> View() == old(View())
      ensures outcome != AssertionFailed ==>
                && Enabled(tables, old(View()), EventOf(old(data[..])))
                && View() == Step(tables, old(View()), EventOf(old(data[..])))
      ensures data[..] ==
                if outcome == Forwarded then HciState.CommandData(old(View()).hci, old(data[..])) else old(data[..])
    {
      hide HciState.CommandState, HciState.CommandData, FakeFor, FakeAt, WordAt, HciState.CommandExpected, HostCommand,
           HciState.HANDLE_COMMANDS, HciState.ADDRESS_COMMANDS, FAKE_COMMANDS, DisconnectOne, StoredKeyOfFake, ByAddress, Answering;
      var opcode := tracker.ReadLe16(data, 0);
      var answer := AskManager(data, opcode, injected);
      if answer.Some? {
        outcome := answer.value;
      } else {
        outcome := ForwardCommand(data, opcode);
      }
    }

    /** fake_wiimote_mgr_handle_hci_cmd_from_host: the outcome, unless the command is the tracker's. */
    method AskManager(data: array<byte>, opcode: word, injected: bool) returns (answer: Option<Outcome>)
      requires Valid() && HciState.CommandWellFormed(data[..]) && opcode == WordAt(data[..], 0)
      requires |wiimotes| == |FAKE_ADDRESSES|
      requires !EventOf(data[..]).Command? ==> Enabled(tables, View(), EventOf(data[..]))
      requires data as object != tracker.table as object && data as object != devices.slots as object
      modifies wiimotes, devices.slots, tracker
      ensures data[..] == old(data[..])
      ensures answer.None? <==> !Handled(old(View()), data[..]) && !StoredKeyOfFake(data[..])
      ensures answer.None? ==> EventOf(data[..]).Command?
      ensures answer.None? || answer.value == AssertionFailed ==> View() == old(View())
      ensures answer.Some? ==>
                answer.value == if CommandFine(old(View()), data[..], injected) then Answered else AssertionFailed
      ensures answer == Some(Answered) ==>
                && Enabled(tables, old(View()), EventOf(data[..]))
                && View() == Step(tables, old(View()), EventOf(data[..]))
    {
      hide FakeFor, FakeAt, WordAt, HciState.CommandExpected, HostCommand, Enabled, Step,
           HciState.HANDLE_COMMANDS, HciState.ADDRESS_COMMANDS, FAKE_COMMANDS, DisconnectOne;
      OpcodesApart();
      ghost var d := data[..];
      if opcode in FAKE_COMMANDS {
        var handle := tracker.ReadLe16(data, 3);
        var w := LookupFake(handle);
        if w.Some? {
          var outcome := AnswerByHandle(opcode, w.value, injected, d);
          return Some(outcome);
        }
      } else if opcode in HciState.ADDRESS_COMMANDS {
        var i := LookupAddress(data, 3);
        if i.Some? {
          var outcome := AnswerByAddress(opcode, i.value, injected, d);
          return Some(outcome);
        }
      } else if opcode == HciState.CMD_READ_STORED_LINK_KEY && data[9] == 0 {
        var i := LookupAddress(data, 3);
        if i.Some? {
          return Some(AssertionFailed);
        }
      }
      return None;
    }

    /** The arms of the manager for commands with a handle. */
    method AnswerByHandle(opcode: word, i: nat, injected: bool, ghost d: seq<byte>) returns (outcome: Outcome)
      requires Valid() && HciState.CommandWellFormed(d) && opcode == WordAt(d, 0) && Answering(View(), d) == Some(i)
      requires |wiimotes| == |FAKE_ADDRESSES|
      modifies wiimotes, devices.slots
      ensures outcome == if CommandFine(old(View()), d, injected) then Answered else AssertionFailed
      ensures outcome == AssertionFailed ==> View() == old(View())
      ensures outcome == Answered ==>
                && Enabled(tables, old(View()), EventOf(d))
                && View() == Step(tables, old(View()), EventOf(d))
    {
      hide WordAt, DisconnectOne, FakeFor, FakeAt, HciState.HANDLE_COMMANDS, HciState.ADDRESS_COMMANDS, FAKE_COMMANDS;
      OpcodesApart();
      if !injected {
        return AssertionFailed;
      }
      if opcode == HciState.CMD_DISCONNECT {
        DisconnectWiimote(i);
      }
      return Answered;
    }

    /** The arms for commands with an address. */
    method AnswerByAddress(opcode: word, i: nat, injected: bool, ghost d: seq<byte>) returns (outcome: Outcome)
      requires Valid() && HciState.CommandWellFormed(d) && opcode == WordAt(d, 0) && ByAddress(d) == Some(i)
      requires !EventOf(d).Command? ==> Enabled(tables, View(), EventOf(d))
      requires |wiimotes| == |FAKE_ADDRESSES|
      modifies wiimotes, devices.slots, tracker
      ensures outcome == if CommandFine(old(View()), d, injected) then Answered else AssertionFailed
      ensures outcome == AssertionFailed ==> View() == old(View())
      ensures outcome == Answered ==>
                Enabled(tables, old(View()), EventOf(d)) && View() == Step(tables, old(View()), EventOf(d))
    {
      hide WordAt, DisconnectOne, FakeFor, FakeAt, HciState.HANDLE_COMMANDS, FAKE_COMMANDS;
      OpcodesApart();
      if opcode == HciState.CMD_REJECT_CON {
        HandleReject(i);
        return Answered;
      }
      if !injected {
        return AssertionFailed;
      }
      if opcode == HciState.CMD_ACCEPT_CON {
        HandleAccept(i);
      }
      return Answered;
    }

    /** What the manager leaves to the tracker. */
    method ForwardCommand(data: array<byte>, opcode: word) returns (outcome: Outcome)
      requires Valid() && HciState.CommandWellFormed(data[..]) && opcode == WordAt(data[..], 0)
      requires !Handled(View(), data[..]) && !StoredKeyOfFake(data[..])
      requires data as object != tracker.table as object && data as object != devices.slots as object
      modifies wiimotes, devices.slots, tracker, tracker.table, data
      ensures outcome ==
                if HciState.CommandExpected(old(View()).hci, old(data[..])) then Forwarded else AssertionFailed
      ensures outcome == AssertionFailed ==> View() == old(View())
      ensures outcome == Forwarded ==> View() == HostCommand(old(View()), old(data[..]))
      ensures data[..] ==
                if outcome == Forwarded then HciState.CommandData(old(View()).hci, old(data[..])) else old(data[..])
    {
      hide HciState.CommandState, HciState.CommandData, FakeFor, FakeAt, ResetFrom, WordAt, HciState.GetPhys, Ws,
           HciState.HANDLE_COMMANDS, HciState.ADDRESS_COMMANDS, FAKE_COMMANDS;
      OpcodesApart();
      if opcode == HciState.CMD_RESET {
        ResetWiimotes();
      }
      var ok := tracker.HandleCommand(data);
      return if ok then Forwarded else AssertionFailed;
    }

    /** hci_state_handle_acl_data_out_request_from_host */
    method HandleAclOut(packet: array<byte>) returns (forward: bool)
      requires Valid() && Enabled(tables, View(), AclOut(packet[..]))
      requires packet as object != tracker.table as object && packet as object != devices.slots as object
      modifies wiimotes, devices.slots, packet
      ensures View() == HostData(tables, old(View()), old(packet[..]))
      ensures forward <==> Receiver(old(Ws()), old(packet[..])).None?
      ensures packet[..] == if forward then HciState.AclOut(old(View()).hci, old(packet[..])) else old(packet[..])
    {
      hide PacketExpected, OnPacket, FakeFor, HciState.AclOut;
      ghost var s := View();
      var w := tracker.ReadLe16(packet, 0);
      var i := LookupFake(HciState.ConHandle(w));
      if i.Some? {
        var effects := wiimotes[i.value].HandleAclOut(packet[4..]);
        Release(effects);
        WsAre(s.ws[i.value := OnPacket(tables, s.ws[i.value], packet[4..]).0]);
        return false;
      }
      tracker.HandleAclOut(packet);
      return true;
    }
  }
}
