/**
 * What the tracker learns by watching the host's commands pass (source/hci_state.c), in the
 * specification's own numbers: page scan, which decides whether fake Wiimotes may connect, and the
 * read-all-keys flag, which decides whether their link keys are counted in.
 */
module Snooping {
  import opened Bytes
  import opened FakeWiimote
  import opened Manager
  import opened Crypto
  import HciState
  import Histories
  import InputDevices
  import Linking
  import Pad
  import Registers

  /** The command has opcode hi * 256 + lo, which is sent low byte first. */
  predicate Opcode(data: seq<byte>, lo: byte, hi: byte) {
    |data| >= 2 && data[0] == lo && data[1] == hi
  }

  lemma OpcodeIs(data: seq<byte>, lo: byte, hi: byte)
    requires |data| >= 2
    ensures Opcode(data, lo, hi) <==> WordAt(data, 0) == FromLe16(lo, hi)
  {
    FromLe16RoundTrip(data[0], data[1]);
    FromLe16RoundTrip(lo, hi);
  }

  /** The scan-enable value and the read-all flag as the last command left them. */
  function ScanAfter(scan: byte, es: seq<Event>): byte {
    if es == [] then scan
    else
      var e := es[|es| - 1];
      if e.Command? && Opcode(e.command, 0x1A, 0x0C) && |e.command| >= 4 then e.command[3]
      else if e.Command? && Opcode(e.command, 0x03, 0x0C) then 0
      else ScanAfter(scan, es[..|es| - 1])
  }

  function KeysAfter(all: byte, es: seq<Event>): byte {
    if es == [] then all
    else
      var e := es[|es| - 1];
      if e.Command? && Opcode(e.command, 0x0D, 0x0C) && |e.command| >= 10 then e.command[9]
      else if e.Command? && Opcode(e.command, 0x03, 0x0C) then 0
      else KeysAfter(all, es[..|es| - 1])
  }

  /** One command that passes. */
  lemma CommandIsSnooped(h: HciState.Hci, data: seq<byte>)
    requires HciState.CommandWellFormed(data)
    ensures var h' := HciState.CommandState(h, data);
            if Opcode(data, 0x1A, 0x0C) then |data| >= 4 && h' == h.(scanEnable := data[3])
            else if Opcode(data, 0x0D, 0x0C) then |data| >= 10 && h' == h.(readAllKeys := data[9])
            else if Opcode(data, 0x03, 0x0C) then
              h'.scanEnable == 0 && h'.readAllKeys == 0 && h'.last == 0
              && forall i :: 0 <= i < |h'.table| ==> !h'.table[i].valid
            else h' == h
  {
    hide HciState.HANDLE_COMMANDS, HciState.ADDRESS_COMMANDS, FromLe16;
    OpcodeIs(data, 0x1A, 0x0C);
    OpcodeIs(data, 0x0D, 0x0C);
    OpcodeIs(data, 0x03, 0x0C);
    Opcodes();
  }

  lemma Opcodes()
    ensures HciState.CMD_WRITE_SCAN_ENABLE == FromLe16(0x1A, 0x0C)
    ensures HciState.CMD_READ_STORED_LINK_KEY == FromLe16(0x0D, 0x0C)
    ensures HciState.CMD_RESET == FromLe16(0x03, 0x0C)
    ensures HciState.CMD_WRITE_SCAN_ENABLE != HciState.CMD_READ_STORED_LINK_KEY
    ensures HciState.CMD_RESET !in {HciState.CMD_WRITE_SCAN_ENABLE, HciState.CMD_READ_STORED_LINK_KEY}
  {
  }

  lemma StepSnoops(t: Tables, s: Sys, e: Event)
    requires t.Valid() && Enabled(t, s, e)
    ensures Step(t, s, e).hci.scanEnable == ScanAfter(s.hci.scanEnable, [e])
    ensures Step(t, s, e).hci.readAllKeys == KeysAfter(s.hci.readAllKeys, [e])
  {
    hide AfterAssign, TimerTicked, OnPacket, PacketExpected, WordAt, HciState.CommandState, HciState.EventExpected,
         HciState.EventWellFormed, CarryOut, HciState.ADDRESS_COMMANDS, HciState.HANDLE_COMMANDS, ResetFrom;
    assert [e][..0] == [];
    match e
    case Command(data) => PassesOn(s, data);
    case _ =>
  }

  /** None of the snooped commands is answered by a fake Wiimote. */
  lemma PassesOn(s: Sys, data: seq<byte>)
    requires HciState.CommandWellFormed(data)
    ensures HostCommand(s, data).hci.scanEnable == ScanAfter(s.hci.scanEnable, [Command(data)])
    ensures HostCommand(s, data).hci.readAllKeys == KeysAfter(s.hci.readAllKeys, [Command(data)])
  {
    hide HciState.CommandState, CarryOut, ResetFrom, WordAt, FakeFor, FakeAt, FAKE_COMMANDS, HciState.HANDLE_COMMANDS,
         HciState.ADDRESS_COMMANDS, FromLe16;
    assert [Command(data)][..0] == [];
    CommandIsSnooped(s.hci, data);
    OpcodesApart();
    Opcodes();
    OpcodeIs(data, 0x1A, 0x0C);
    OpcodeIs(data, 0x0D, 0x0C);
    OpcodeIs(data, 0x03, 0x0C);
  }

  lemma {:induction false} ScanFromFront(scan: byte, e: Event, es: seq<Event>)
    ensures ScanAfter(scan, [e] + es) == ScanAfter(ScanAfter(scan, [e]), es)
    decreases |es|
  {
    var all := [e] + es;
    if es == [] {
      assert all == [e];
    } else {
      assert all[..|es|] == [e] + es[..|es| - 1] && all[|es|] == es[|es| - 1];
      ScanFromFront(scan, e, es[..|es| - 1]);
    }
  }

  lemma {:induction false} KeysFromFront(keys: byte, e: Event, es: seq<Event>)
    ensures KeysAfter(keys, [e] + es) == KeysAfter(KeysAfter(keys, [e]), es)
    decreases |es|
  {
    var all := [e] + es;
    if es == [] {
      assert all == [e];
    } else {
      assert all[..|es|] == [e] + es[..|es| - 1] && all[|es|] == es[|es| - 1];
      KeysFromFront(keys, e, es[..|es| - 1]);
    }
  }

  /** Over every run: whether fake Wiimotes may request connections is decided by the last scan-enable
      command, unless a reset came after it; the read-all flag likewise. */
  lemma {:induction false} LastCommandDecides(t: Tables, s: Sys, es: seq<Event>)
    requires t.Valid() && Legal(t, s, es)
    ensures var h := After(t, s, es).hci;
            && h.scanEnable == ScanAfter(s.hci.scanEnable, es)
            && h.readAllKeys == KeysAfter(s.hci.readAllKeys, es)
            && (CanRequest(h) <==> ScanAfter(s.hci.scanEnable, es) & 2 != 0)
    decreases |es|
  {
    hide Enabled, Step;
    if es != [] {
      StepSnoops(t, s, es[0]);
      LastCommandDecides(t, Step(t, s, es[0]), es[1..]);
      assert es == [es[0]] + es[1..];
      ScanFromFront(s.hci.scanEnable, es[0], es[1..]);
      KeysFromFront(s.hci.readAllKeys, es[0], es[1..]);
    }
  }

  /** Without such a command after boot or a reset, page scan stays off. */
  lemma {:induction false} ScanStaysOff(es: seq<Event>)
    requires forall i :: 0 <= i < |es| ==> es[i].Command? ==> !Opcode(es[i].command, 0x1A, 0x0C)
    ensures ScanAfter(0, es) == 0
  {
    if es != [] {
      ScanStaysOff(es[..|es| - 1]);
    }
  }

  /** After any run, the answer to a read-stored-link-key command counts in the keys of the two fake
      Wiimotes, in its 16-bit fields at offsets 6 and 8, exactly if the flag is set. */
  lemma KeysAreCountedIn(t: Tables, s: Sys, es: seq<Event>, data: seq<byte>)
    requires t.Valid() && Legal(t, s, es) && |data| >= 10 && data[0] == 0x0E && data[3] == 0x0D && data[4] == 0x0C
    ensures HciState.EventWellFormed(data)
    ensures var r := HciState.EventData(After(t, s, es).hci, data);
            if KeysAfter(s.hci.readAllKeys, es) != 0 then
              && WordAt(r, 6) == WordAt(data, 6) + 2 && WordAt(r, 8) == WordAt(data, 8) + 2
              && r[..6] == data[..6] && r[10..] == data[10..]
            else r == data
  {
    hide Legal, After, HciState.STATUS_FIRST_EVENTS, HciState.HANDLE_FIRST_EVENTS;
    LastCommandDecides(t, s, es);
    assert WordAt(data, 3) == HciState.CMD_READ_STORED_LINK_KEY;
    CountsRaised(data, WordAt(data, 6) + 2, WordAt(data, 8) + 2);
  }

  lemma CountsRaised(data: seq<byte>, a: word, b: word)
    requires |data| >= 10
    ensures var r := Splice(Splice(data, 6, Le16(a)), 8, Le16(b));
            WordAt(r, 6) == a && WordAt(r, 8) == b && r[..6] == data[..6] && r[10..] == data[10..]
  {
    Le16RoundTrip(a);
    Le16RoundTrip(b);
  }

  // ---------------------------------------------------------------- from boot to a connection

  /** A gamepad is plugged in, the host enables page scan, and the timer fires. */
  function FirstEvents(d: nat, timer: Event): seq<Event> {
    [GamepadAdded(d), Command([0x1A, 0x0C, 0x01, 0x02]), timer]
  }

  ghost predicate FirstTimer(t: Tables, ws: seq<Wiimote>, timer: Event) {
    && t.Valid() && |ws| == 2 && (forall i :: 0 <= i < |ws| ==> !ws[i].active && Registers.Shaped(ws[i].pad.mem))
    && timer.Timer? && |timer.calibration| == 0x1700
    && |timer.ticks| == 2 && timer.ticks[0].ok.request
    && forall i :: 0 <= i < |timer.ticks| ==> Pad.ValidInput(timer.ticks[i].input)
  }

  function Waiting(ws: seq<Wiimote>, d: nat): Sys {
    Boot(ws).(hci := Boot(ws).hci.(scanEnable := 2), devs := [InputDevices.Slot(Some(d), None, 0), InputDevices.Slot(None, None, 0)])
  }

  lemma BeforeTheTimer(t: Tables, ws: seq<Wiimote>, d: nat)
    requires t.Valid()
    ensures Legal(t, Boot(ws), [GamepadAdded(d), Command([0x1A, 0x0C, 0x01, 0x02])])
    ensures After(t, Boot(ws), [GamepadAdded(d), Command([0x1A, 0x0C, 0x01, 0x02])]) == Waiting(ws, d)
  {
    hide HciState.HANDLE_COMMANDS, HciState.ADDRESS_COMMANDS, FAKE_COMMANDS, FakeAt, FakeFor;
    var data := [0x1A, 0x0C, 0x01, 0x02];
    OpcodesApart();
    assert WordAt(data, 0) == HciState.CMD_WRITE_SCAN_ENABLE;
    var s := Boot(ws);
    var s1 := Step(t, s, GamepadAdded(d));
    assert s1.devs == Waiting(ws, d).devs;
    assert Enabled(t, s1, Command(data));
    assert Step(t, s1, Command(data)) == Waiting(ws, d);
    var es := [GamepadAdded(d), Command(data)];
    assert es[1..] == [Command(data)] && es[1..][1..] == [];
    TwoSteps(t, s, es);
  }

  lemma TwoSteps(t: Tables, s: Sys, es: seq<Event>)
    requires t.Valid() && |es| == 2 && Enabled(t, s, es[0]) && Enabled(t, Step(t, s, es[0]), es[1])
    ensures Legal(t, s, es) && After(t, s, es) == Step(t, Step(t, s, es[0]), es[1])
  {
    hide Enabled, Step;
    var s1 := Step(t, s, es[0]);
    assert es[1..] == [es[1]] && es[1..][1..] == [];
    assert Legal(t, s1, es[1..]) && After(t, s1, es[1..]) == Step(t, s1, es[1]);
  }

  lemma FirstAssignment(ws: seq<Wiimote>, d: nat, calibration: seq<byte>)
    requires |ws| == 2 && !ws[0].active && !ws[1].active
    ensures AfterAssign(Waiting(ws, d), calibration) ==
            ([Activated(ws[0], 0, calibration), ws[1]],
             [InputDevices.Slot(Some(d), Some(0), 0), InputDevices.Slot(None, None, 0)])
  {
    hide Activated;
    var devs := Waiting(ws, d).devs;
    var ws' := ws[0 := Activated(ws[0], 0, calibration)];
    var devs' := [InputDevices.Slot(Some(d), Some(0), 0), InputDevices.Slot(None, None, 0)];
    assert InputDevices.Ticked(devs) == devs;
    assert InputDevices.FindUnassigned(devs) == Some(0);
    assert InputDevices.Assigned(devs, 0, 0) == devs';
    assert InputDevices.FindUnassigned(devs', 1).None? && InputDevices.FindUnassigned(devs').None?;
    assert AssignFrom(ws', devs', calibration, 1) == AssignFrom(ws', devs', calibration, 2) == (ws', devs');
    assert ws' == [ws'[0], ws[1]];
    assert AssignFrom(ws, devs, calibration) == AssignFrom(ws', devs', calibration, 1);
  }

  /** Then the first Wiimote is given the gamepad and requests its connection in the same period, and
      when the host accepts it, it is connected under the first handle. */
  lemma FirstConnection(t: Tables, ws: seq<Wiimote>, d: nat, timer: Event)
    requires FirstTimer(t, ws, timer)
    ensures var es := [GamepadAdded(d), Command([0x1A, 0x0C, 0x01, 0x02])];
            && Legal(t, Boot(ws), es)
            && var s := After(t, Boot(ws), es);
               && |s.ws| == 2 && !s.ws[0].active && Enabled(t, s, timer)
               && Histories.Sent(t, s, timer, 0) == [LinkSent(Linking.ConnectionRequest(true))]
               && var s' := Step(t, s, timer);
                  && |s'.ws| == 2 && s'.ws[0].active && !s'.ws[1].active
                  && s'.ws[0].inputDevice == Some(0) && |s'.devs| == 2 && s'.devs[0].wiimote == Some(0)
                  && Enabled(t, s', Accept(0))
                  && Step(t, s', Accept(0)).ws[0].Connected() && Step(t, s', Accept(0)).ws[0].link.conHandle == 0
  {
    hide Activated, Legal, After;
    BeforeTheTimer(t, ws, d);
    FirstAssignment(ws, d, timer.calibration);
    var s := Waiting(ws, d);
    var w := Activated(ws[0], 0, timer.calibration);
    FirstTick(t, ws[0], timer, s.cids);
    assert CidsUpTo([w, ws[1]], 0, 0) == 0;
    assert TicksExpected(t, [w, ws[1]], timer.ticks);
    assert Histories.EnvOf(s, timer, 0) == TickEnv(true, timer.ticks[0].ok, 0);
  }

  lemma FirstTick(t: Tables, w: Wiimote, timer: Event, cids: nat)
    requires t.Valid() && Registers.Shaped(w.pad.mem) && timer.Timer? && |timer.calibration| == 0x1700
    requires |timer.ticks| == 2 && timer.ticks[0].ok.request && Pad.ValidInput(timer.ticks[0].input)
    ensures var v, input := Activated(w, 0, timer.calibration), timer.ticks[0].input;
            && v.active && v.inputDevice == Some(0) && !Linking.Opens(v.link) && TickExpected(t, v, input)
            && OnTick(t, v, TickEnv(true, timer.ticks[0].ok, cids), input) ==
               (v.(link := v.link.(baseband := Linking.BasebandInactive)), [LinkSent(Linking.ConnectionRequest(true))])
  {
    hide Pad.InitPad;
    Pad.InitPadInv(t, w.pad, timer.calibration);
    PadShaped(t, Pad.InitPad(w.pad, timer.calibration));
    var v := Activated(w, 0, timer.calibration);
    var out := Linking.ConnectionRequest(true);
    assert Linking.OnTick(v.link, TickEnv(true, timer.ticks[0].ok, cids)) ==
           (v.link.(baseband := Linking.BasebandInactive), [out]);
    assert LinkEffects([out]) == [LinkSent(out)];
  }
}
