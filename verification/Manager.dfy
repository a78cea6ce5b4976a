/**
 * The manager of the fake Wiimotes (source/fake_wiimote_mgr.c) together with the gamepads, the
 * Wiimotes and the connection handles: every way in which the host, the dongle, the timer and the
 * user act on them, and who owns which gamepad.
 */
module Manager {
  import opened Bytes
  import opened FakeWiimote
  import opened Crypto
  import HciState
  import Linking
  import Pad
  import Registers
  import L2cap
  import InputDevices

  /** cids channel identifiers have been given out. */
  datatype Sys = Sys(hci: HciState.Hci, ws: seq<Wiimote>, devs: seq<InputDevices.Slot>, cids: nat)

  /** What one Wiimote's tick depends on, besides page scan and the identifier counter. */
  datatype TickInput = TickInput(ok: Injections, input: Pad.Input)

  /** Accept, Reject and Command stand for host commands whose replies, where the program insists on
      them, could be injected. */
  datatype Event =
    | GamepadAdded(d: nat)
    | GamepadRemoved(d: nat)
    | Timer(ticks: seq<TickInput>, calibration: seq<byte>, sent: bool)
    | FromController(event: seq<byte>)
    | Accept(i: nat)
    | Reject(i: nat)
    | Command(command: seq<byte>)
    | AclOut(packet: seq<byte>)

  /** One entry of a Number Of Completed Packets event. */
  datatype Entry = Entry(handle: word, count: nat)

  const PAGE_SCAN_ENABLE: byte := 2

  /** Commands that a fake Wiimote answers itself when they carry its handle. */
  const FAKE_COMMANDS: set<word> :=
    {0x0406, 0x040F, 0x0411, 0x041B, 0x041D, 0x041F, 0x0803, 0x080D, 0x0C37}

  /** They are: disconnect, packet type, authentication, remote features and version, clock offset (link
      control), sniff, link policy settings (link policy), and the supervision timeout (controller). */
  lemma FakeCommandsByGroup(opcode: word)
    ensures opcode in FAKE_COMMANDS <==>
            var (group, command) := (opcode >> 10, opcode & 0x03FF);
            if group == 1 then command in {0x06, 0x0F, 0x11, 0x1B, 0x1D, 0x1F}
            else if group == 2 then command == 0x03 || command == 0x0D
            else group == 3 && command == 0x37
  {
  }

  // ---------------------------------------------------------------- the parts of the steps

  /** hci_can_request_connection */
  predicate CanRequest(hci: HciState.Hci) {
    hci.scanEnable & PAGE_SCAN_ENABLE != 0
  }

  /** get_fake_wiimote_for_hci_con_handle */
  function FakeFor(ws: seq<Wiimote>, h: word, i: nat := 0): (r: Option<nat>)
    requires i <= |ws|
    ensures r.Some? ==> i <= r.value < |ws| && ws[r.value].Connected() && ws[r.value].link.conHandle == h
    ensures r.None? ==> forall j :: i <= j < |ws| && ws[j].Connected() ==> ws[j].link.conHandle != h
    decreases |ws| - i
  {
    if i == |ws| then None
    else if ws[i].Connected() && ws[i].link.conHandle == h then Some(i)
    else FakeFor(ws, h, i + 1)
  }

  /** fake_wiimote_mgr_check_assign_input_devices, from Wiimote i on. */
  function AssignFrom(ws: seq<Wiimote>, devs: seq<InputDevices.Slot>, calibration: seq<byte>, i: nat := 0)
    : (r: (seq<Wiimote>, seq<InputDevices.Slot>))
    requires i <= |ws|
    ensures |r.0| == |ws| && |r.1| == |devs|
    decreases |ws| - i
  {
    if i == |ws| then (ws, devs)
    else if ws[i].active || InputDevices.FindUnassigned(devs).None? then AssignFrom(ws, devs, calibration, i + 1)
    else
      var k := InputDevices.FindUnassigned(devs).value;
      AssignFrom(ws[i := Activated(ws[i], k, calibration)], InputDevices.Assigned(devs, k, i), calibration, i + 1)
  }

  function Activated(w: Wiimote, slot: nat, calibration: seq<byte>): Wiimote {
    InitState(w, slot, calibration).(active := true)
  }

  function AfterAssign(s: Sys, calibration: seq<byte>): (r: (seq<Wiimote>, seq<InputDevices.Slot>))
    ensures |r.0| == |s.ws| && |r.1| == |s.devs|
  {
    var devs := InputDevices.Ticked(s.devs);
    if CanRequest(s.hci) then AssignFrom(s.ws, devs, calibration) else (s.ws, devs)
  }

  /** Identifiers given out once the first i Wiimotes have ticked. */
  function CidsUpTo(ws: seq<Wiimote>, i: nat, cids: nat): (n: nat)
    requires i <= |ws|
    ensures n >= cids
  {
    if i == 0 then cids
    else CidsUpTo(ws, i - 1, cids) + if ws[i - 1].active && Linking.Opens(ws[i - 1].link) then 1 else 0
  }

  ghost function TickOne(t: Tables, hci: HciState.Hci, w: Wiimote, i: TickInput, cids: nat): Wiimote
    requires t.Valid() && (w.active ==> TickExpected(t, w, i.input))
  {
    if w.active then OnTick(t, w, TickEnv(CanRequest(hci), i.ok, cids), i.input).0 else w
  }

  /** The program insists on the injection of L2CAP connection requests. */
  predicate TicksExpected(t: Tables, ws: seq<Wiimote>, ticks: seq<TickInput>) {
    && |ticks| == |ws|
    && (forall i :: 0 <= i < |ws| && ws[i].active ==> TickExpected(t, ws[i], ticks[i].input))
    && (forall i :: 0 <= i < |ws| && ws[i].active && Linking.Opens(ws[i].link) ==> ticks[i].ok.connect)
  }

  ghost function TickAll(t: Tables, hci: HciState.Hci, ws: seq<Wiimote>, ticks: seq<TickInput>, cids: nat): (r: seq<Wiimote>)
    requires t.Valid() && TicksExpected(t, ws, ticks)
    ensures |r| == |ws|
  {
    seq(|ws|, i requires 0 <= i < |ws| => TickOne(t, hci, ws[i], ticks[i], CidsUpTo(ws, i, cids)))
  }

  /** The entries for the connected Wiimotes; the counts travel as 16-bit values. */
  function Entries(ws: seq<Wiimote>): seq<Entry> {
    if ws == [] then []
    else
      var w := ws[|ws| - 1];
      Entries(ws[..|ws| - 1]) + if w.Connected() then [Entry(w.link.conHandle, w.completed % 0x1_0000)] else []
  }

  function Total(ws: seq<Wiimote>): nat {
    if ws == [] then 0
    else
      var w := ws[|ws| - 1];
      Total(ws[..|ws| - 1]) + if w.Connected() then w.completed else 0
  }

  function ClearedOne(w: Wiimote): Wiimote {
    if w.Connected() then w.(completed := 0) else w
  }

  function Cleared(ws: seq<Wiimote>): (r: seq<Wiimote>)
    ensures |r| == |ws|
  {
    seq(|ws|, i requires 0 <= i < |ws| => ClearedOne(ws[i]))
  }

  /** The event that is injected; the total is summed in 32 bits. */
  function CompletedEvent(ws: seq<Wiimote>): Option<seq<Entry>> {
    if Total(ws) % COUNTER > 0 then Some(Entries(ws)) else None
  }

  /** The releases among a Wiimote's effects. */
  function CarryOut(devs: seq<InputDevices.Slot>, es: seq<Effect>): (r: seq<InputDevices.Slot>)
    ensures |r| == |devs|
    decreases |es|
  {
    if es == [] then devs
    else
      CarryOut(if es[0].ReleaseDevice? && es[0].slot < |devs| then InputDevices.Released(devs, es[0].slot) else devs, es[1..])
  }

  function DisconnectOne(s: Sys, i: nat): (r: Sys)
    requires i < |s.ws|
    ensures |r.ws| == |s.ws| && |r.devs| == |s.devs| && r.hci == s.hci
  {
    var (w, es) := Disconnect(s.ws[i]);
    s.(ws := s.ws[i := w], devs := CarryOut(s.devs, es))
  }

  /** input_device_handle_removed: the Wiimote lets go of the gamepad first, so nothing is released. */
  function Removed(s: Sys, d: nat): Sys {
    match InputDevices.FindDevice(s.devs, d)
    case None => s
    case Some(k) =>
      var ws :=
        match s.devs[k].wiimote
        case Some(i) => if i < |s.ws| then s.ws[i := Disconnect(s.ws[i].(inputDevice := None)).0] else s.ws
        case None => s.ws;
      s.(ws := ws, devs := s.devs[k := s.devs[k].(device := None)])
  }

  /** The Wiimotes' part of HCI_CMD_RESET, from Wiimote i on. */
  function ResetFrom(ws: seq<Wiimote>, devs: seq<InputDevices.Slot>, i: nat := 0)
    : (r: (seq<Wiimote>, seq<InputDevices.Slot>))
    requires i <= |ws|
    ensures |r.0| == |ws| && |r.1| == |devs|
    decreases |ws| - i
  {
    if i == |ws| then (ws, devs)
    else if !ws[i].active then ResetFrom(ws, devs, i + 1)
    else
      ResetFrom(ws[i := ws[i].(active := false)],
                if ws[i].inputDevice.Some? && ws[i].inputDevice.value < |devs|
                then InputDevices.Released(devs, ws[i].inputDevice.value) else devs,
                i + 1)
  }

  // Host commands. A fake Wiimote is meant by its handle or by its address.

  const FAKE_ADDRESSES: seq<seq<byte>> :=
    [[0xFE, 0xED, 0xBA, 0xDF, 0x00, 0xD0], [0xFE, 0xED, 0xBA, 0xDF, 0x00, 0xD1]]

  /** does_bdaddr_belong_to_fake_wiimote, from Wiimote i on. */
  function FakeAt(address: seq<byte>, i: nat := 0): (r: Option<nat>)
    requires i <= |FAKE_ADDRESSES|
    ensures r.Some? ==> i <= r.value < |FAKE_ADDRESSES| && FAKE_ADDRESSES[r.value] == address
    ensures r.None? ==> forall j :: i <= j < |FAKE_ADDRESSES| ==> FAKE_ADDRESSES[j] != address
    decreases |FAKE_ADDRESSES| - i
  {
    if i == |FAKE_ADDRESSES| then None
    else if FAKE_ADDRESSES[i] == address then Some(i)
    else FakeAt(address, i + 1)
  }

  /** The fake Wiimote whose address a command carries. */
  function ByAddress(data: seq<byte>): (r: Option<nat>)
    requires HciState.CommandWellFormed(data)
    ensures r.Some? ==> r.value < |FAKE_ADDRESSES|
  {
    if WordAt(data, 0) in HciState.ADDRESS_COMMANDS then FakeAt(data[3..9]) else None
  }

  /** A request for the link key of one fake Wiimote: its case is a failing assertion. */
  predicate StoredKeyOfFake(data: seq<byte>)
    requires HciState.CommandWellFormed(data)
  {
    WordAt(data, 0) == HciState.CMD_READ_STORED_LINK_KEY && data[9] == 0 && FakeAt(data[3..9]).Some?
  }

  /** The event that a command is. */
  function EventOf(data: seq<byte>): (e: Event)
    requires HciState.CommandWellFormed(data)
    ensures !e.Timer? && !e.AclOut? && !e.FromController?
  {
    if ByAddress(data).Some? && WordAt(data, 0) == HciState.CMD_ACCEPT_CON then Accept(ByAddress(data).value)
    else if ByAddress(data).Some? && WordAt(data, 0) == HciState.CMD_REJECT_CON then Reject(ByAddress(data).value)
    else Command(data)
  }

  /** A fake Wiimote answers the command in place of the dongle. */
  predicate Handled(s: Sys, data: seq<byte>)
    requires HciState.CommandWellFormed(data)
  {
    Answering(s, data).Some? || ByAddress(data).Some?
  }

  /** No assertion fails on the command; injected says whether all replies of a fake Wiimote could be
      injected. A rejected connection has no reply. */
  predicate CommandFine(s: Sys, data: seq<byte>, injected: bool) {
    && HciState.CommandWellFormed(data)
    && !StoredKeyOfFake(data)
    && (if Handled(s, data) then WordAt(data, 0) != HciState.CMD_REJECT_CON ==> injected
        else HciState.CommandExpected(s.hci, data))
  }

  /** The opcodes with a treatment of their own are different ones. */
  lemma OpcodesApart()
    ensures FAKE_COMMANDS <= HciState.HANDLE_COMMANDS && HciState.ADDRESS_COMMANDS !! HciState.HANDLE_COMMANDS
    ensures forall c :: c in [HciState.CMD_RESET, HciState.CMD_READ_STORED_LINK_KEY, HciState.CMD_WRITE_SCAN_ENABLE] ==>
              c !in HciState.HANDLE_COMMANDS && c !in HciState.ADDRESS_COMMANDS && !HciState.Unsupported(c)
    ensures forall c :: HciState.Unsupported(c) ==> c !in HciState.HANDLE_COMMANDS && c !in HciState.ADDRESS_COMMANDS
    ensures HciState.CMD_DISCONNECT in FAKE_COMMANDS && HciState.CMD_REJECT_CON in HciState.ADDRESS_COMMANDS
  {
  }

  /** The fake Wiimote whose handle a command carries, if it is a command it answers. */
  function Answering(s: Sys, data: seq<byte>): (r: Option<nat>)
    requires HciState.CommandWellFormed(data)
    ensures r.Some? ==> r.value < |s.ws| && s.ws[r.value].Connected()
  {
    FakeCommandsCarryHandles();
    if WordAt(data, 0) in FAKE_COMMANDS then FakeFor(s.ws, WordAt(data, 3)) else None
  }

  lemma FakeCommandsCarryHandles()
    ensures FAKE_COMMANDS <= HciState.HANDLE_COMMANDS
  {
  }

  /** A command that is not an accept or a reject of a fake Wiimote. */
  function HostCommand(s: Sys, data: seq<byte>): Sys
    requires HciState.CommandWellFormed(data)
  {
    if Answering(s, data).Some? then
      (if WordAt(data, 0) == HciState.CMD_DISCONNECT then DisconnectOne(s, Answering(s, data).value) else s)
    else if ByAddress(data).Some? then s
    else if WordAt(data, 0) == HciState.CMD_RESET then
      var (ws, devs) := ResetFrom(s.ws, s.devs);
      s.(hci := HciState.CommandState(s.hci, data), ws := ws, devs := devs)
    else s.(hci := HciState.CommandState(s.hci, data))
  }

  ghost function HostData(t: Tables, s: Sys, packet: seq<byte>): Sys
    requires t.Valid() && AclExpected(t, s, packet)
  {
    match Receiver(s.ws, packet)
    case Some(i) =>
      var (w, es) := OnPacket(t, s.ws[i], packet[4..]);
      s.(ws := s.ws[i := w], devs := CarryOut(s.devs, es))
    case None => s
  }

  function Receiver(ws: seq<Wiimote>, packet: seq<byte>): (r: Option<nat>)
    requires |packet| >= 4
    ensures r.Some? ==> r.value < |ws| && ws[r.value].Connected()
  {
    FakeFor(ws, HciState.ConHandle(WordAt(packet, 0)))
  }

  predicate AclExpected(t: Tables, s: Sys, packet: seq<byte>) {
    && |packet| >= 4
    && match Receiver(s.ws, packet)
       case Some(i) => PacketExpected(t, s.ws[i], packet[4..])
       case None => HciState.GetPhys(s.hci.table, HciState.ConHandle(WordAt(packet, 0))).Some?
  }

  // ---------------------------------------------------------------- steps and runs

  /** The host answers connection requests only while they are open, and everybody's packets are
      well-formed. */
  predicate Enabled(t: Tables, s: Sys, e: Event) {
    match e
    case GamepadAdded(_) => true
    case GamepadRemoved(_) => true
    case Timer(ticks, calibration, _) =>
      && |calibration| == Registers.EEPROM_FREE_SIZE
      && TicksExpected(t, AfterAssign(s, calibration).0, ticks)
    case FromController(data) => HciState.EventExpected(s.hci, data)
    case Accept(i) => i < |s.ws| && s.ws[i].active && s.ws[i].link.baseband == Linking.BasebandInactive
    case Reject(i) => i < |s.ws| && s.ws[i].active && s.ws[i].link.baseband == Linking.BasebandInactive
    case Command(data) =>
      CommandFine(s, data, true) && EventOf(data) == Command(data)
    case AclOut(packet) => AclExpected(t, s, packet)
  }

  /** The Wiimotes after their ticks, before their counters are collected. */
  ghost function TimerTicked(t: Tables, s: Sys, e: Event): (r: seq<Wiimote>)
    requires t.Valid() && e.Timer? && Enabled(t, s, e)
    ensures |r| == |s.ws|
  {
    TickAll(t, s.hci, AfterAssign(s, e.calibration).0, e.ticks, s.cids)
  }

  ghost function Step(t: Tables, s: Sys, e: Event): Sys
    requires t.Valid() && Enabled(t, s, e)
  {
    match e
    case GamepadAdded(d) => s.(devs := InputDevices.Added(s.devs, d))
    case GamepadRemoved(d) => Removed(s, d)
    case Timer(_, calibration, _) =>
      s.(ws := Cleared(TimerTicked(t, s, e)), devs := AfterAssign(s, calibration).1,
         cids := CidsUpTo(AfterAssign(s, calibration).0, |s.ws|, s.cids))
    case FromController(data) => s.(hci := HciState.EventState(s.hci, data))
    case Accept(i) =>
      s.(hci := s.hci.(last := HciState.NextHandle(s.hci.last)), ws := s.ws[i := OnAccept(s.ws[i], s.hci.last)])
    case Reject(i) => DisconnectOne(s, i)
    case Command(data) => HostCommand(s, data)
    case AclOut(packet) => HostData(t, s, packet)
  }

  ghost predicate Legal(t: Tables, s: Sys, es: seq<Event>)
    requires t.Valid()
    decreases |es|
  {
    es == [] || (Enabled(t, s, es[0]) && Legal(t, Step(t, s, es[0]), es[1..]))
  }

  ghost function After(t: Tables, s: Sys, es: seq<Event>): Sys
    requires t.Valid() && Legal(t, s, es)
    decreases |es|
  {
    if es == [] then s else After(t, Step(t, s, es[0]), es[1..])
  }

  /** Idle Wiimotes, empty gamepad slots, a reset tracker. */
  function Boot(ws: seq<Wiimote>): Sys {
    Sys(HciState.Reset(), ws, Fill(InputDevices.MAX_INPUT_DEVS, InputDevices.Slot(None, None, 0)), 0)
  }

  // ---------------------------------------------------------------- ownership

  /** The two-way matching between active Wiimotes and gamepads. Disconnected Wiimotes and
      unplugged slots may keep stale pointers. */
  predicate Owned(ws: seq<Wiimote>, devs: seq<InputDevices.Slot>) {
    && (forall i :: 0 <= i < |ws| && ws[i].active ==>
          && ws[i].inputDevice.Some? && ws[i].inputDevice.value < |devs|
          && devs[ws[i].inputDevice.value].device.Some?
          && devs[ws[i].inputDevice.value].wiimote == Some(i))
    && (forall k :: 0 <= k < |devs| && devs[k].device.Some? && devs[k].wiimote.Some? ==>
          && devs[k].wiimote.value < |ws|
          && ws[devs[k].wiimote.value].active && ws[devs[k].wiimote.value].inputDevice == Some(k))
  }

  ghost predicate Sound(t: Tables, w: Wiimote) {
    && t.Valid() && Registers.Shaped(w.pad.mem)
    && (w.active ==> Pad.Inv(t, w.pad))
    && (w.active && !w.Connected() ==> w.completed == 0)
  }

  ghost predicate Inv(t: Tables, s: Sys) {
    && t.Valid() && |s.ws| == HciState.MAX_FAKE_WIIMOTES
    && Owned(s.ws, s.devs)
    && forall i :: 0 <= i < |s.ws| ==> Sound(t, s.ws[i])
  }

  /** Nobody changes hands. */
  lemma OwnedSame(ws: seq<Wiimote>, ws': seq<Wiimote>, devs: seq<InputDevices.Slot>)
    requires Owned(ws, devs) && |ws'| == |ws|
    requires forall i :: 0 <= i < |ws| ==> ws'[i].active == ws[i].active && ws'[i].inputDevice == ws[i].inputDevice
    ensures Owned(ws', devs)
  {
  }

  lemma OwnedReleased(ws: seq<Wiimote>, devs: seq<InputDevices.Slot>, i: nat, w: Wiimote)
    requires Owned(ws, devs) && i < |ws| && ws[i].active && !w.active
    ensures Owned(ws[i := w], InputDevices.Released(devs, ws[i].inputDevice.value))
  {
  }

  lemma OwnedAssigned(ws: seq<Wiimote>, devs: seq<InputDevices.Slot>, i: nat, k: nat, w: Wiimote)
    requires Owned(ws, devs) && i < |ws| && !ws[i].active && k < |devs| && InputDevices.Eligible(devs[k])
    requires w.active && w.inputDevice == Some(k)
    ensures Owned(ws[i := w], InputDevices.Assigned(devs, k, i))
  {
  }

  lemma OwnedUnplugged(s: Sys, d: nat)
    requires Owned(s.ws, s.devs)
    ensures Owned(Removed(s, d).ws, Removed(s, d).devs)
  {
    match InputDevices.FindDevice(s.devs, d)
    case None =>
    case Some(k) => SlotEmptied(s.ws, Removed(s, d).ws, s.devs, k);
  }

  lemma SlotEmptied(ws: seq<Wiimote>, ws': seq<Wiimote>, devs: seq<InputDevices.Slot>, k: nat)
    requires Owned(ws, devs) && k < |devs| && |ws'| == |ws| && devs[k].device.Some?
    requires forall i :: 0 <= i < |ws| && devs[k].wiimote != Some(i) ==> ws'[i] == ws[i]
    requires forall i :: 0 <= i < |ws| && devs[k].wiimote == Some(i) ==> !ws'[i].active
    ensures Owned(ws', devs[k := devs[k].(device := None)])
  {
    var devs' := devs[k := devs[k].(device := None)];
    forall j | 0 <= j < |devs'| && devs'[j].device.Some? && devs'[j].wiimote.Some?
      ensures devs'[j].wiimote.value < |ws'|
      ensures ws'[devs'[j].wiimote.value].active && ws'[devs'[j].wiimote.value].inputDevice == Some(j)
    {
      assert ws[devs[j].wiimote.value].inputDevice == Some(j);
    }
  }

  lemma OwnedTicked(ws: seq<Wiimote>, devs: seq<InputDevices.Slot>)
    requires Owned(ws, devs)
    ensures Owned(ws, InputDevices.Ticked(devs))
  {
  }

  lemma OwnedAdded(ws: seq<Wiimote>, devs: seq<InputDevices.Slot>, d: nat)
    requires Owned(ws, devs)
    ensures Owned(ws, InputDevices.Added(devs, d))
  {
  }

  /** Several releases of one slot are one release. */
  lemma {:induction false} CarryOutReleases(devs: seq<InputDevices.Slot>, es: seq<Effect>, slot: nat)
    requires slot < |devs| && forall k: nat :: ReleaseDevice(k) in es ==> k == slot
    ensures CarryOut(devs, es) == if ReleaseDevice(slot) in es then InputDevices.Released(devs, slot) else devs
    decreases |es|
  {
    if es != [] {
      var devs' := if es[0].ReleaseDevice? then InputDevices.Released(devs, slot) else devs;
      if es[0].ReleaseDevice? {
        assert ReleaseDevice(es[0].slot) in es;
      }
      assert forall k: nat :: ReleaseDevice(k) in es[1..] ==> ReleaseDevice(k) in es;
      CarryOutReleases(devs', es[1..], slot);
      assert InputDevices.Released(InputDevices.Released(devs, slot), slot) == InputDevices.Released(devs, slot);
      assert ReleaseDevice(slot) in es <==> es[0] == ReleaseDevice(slot) || ReleaseDevice(slot) in es[1..];
    }
  }

  /** A Wiimote that acted, and released its gamepad exactly if it went inactive. */
  lemma OwnedActed(ws: seq<Wiimote>, devs: seq<InputDevices.Slot>, i: nat, w: Wiimote, es: seq<Effect>)
    requires Owned(ws, devs) && i < |ws| && ws[i].active && w.inputDevice == ws[i].inputDevice
    requires forall k: nat :: ReleaseDevice(k) in es ==> !w.active && w.inputDevice == Some(k)
    requires !w.active ==> ReleaseDevice(w.inputDevice.value) in es
    ensures CarryOut(devs, es) == if w.active then devs else InputDevices.Released(devs, w.inputDevice.value)
    ensures Owned(ws[i := w], CarryOut(devs, es))
  {
    CarryOutReleases(devs, es, w.inputDevice.value);
    if w.active {
      OwnedSame(ws, ws[i := w], devs);
    } else {
      OwnedReleased(ws, devs, i, w);
    }
  }

  lemma OwnedDisconnected(s: Sys, i: nat)
    requires Owned(s.ws, s.devs) && i < |s.ws| && s.ws[i].active
    ensures Owned(DisconnectOne(s, i).ws, DisconnectOne(s, i).devs)
  {
    var (w, es) := Disconnect(s.ws[i]);
    OwnedActed(s.ws, s.devs, i, w, es);
  }

  lemma {:induction false} ResetWs(ws: seq<Wiimote>, devs: seq<InputDevices.Slot>, i: nat)
    requires i <= |ws|
    ensures forall j :: 0 <= j < |ws| ==>
              ResetFrom(ws, devs, i).0[j] == if i <= j then ws[j].(active := false) else ws[j]
    decreases |ws| - i
  {
    if i < |ws| {
      if ws[i].active {
        ResetWs(ws[i := ws[i].(active := false)],
                if ws[i].inputDevice.Some? && ws[i].inputDevice.value < |devs|
                then InputDevices.Released(devs, ws[i].inputDevice.value) else devs,
                i + 1);
      } else {
        ResetWs(ws, devs, i + 1);
      }
    }
  }

  lemma {:induction false} OwnedReset(ws: seq<Wiimote>, devs: seq<InputDevices.Slot>, i: nat)
    requires Owned(ws, devs) && i <= |ws|
    ensures Owned(ResetFrom(ws, devs, i).0, ResetFrom(ws, devs, i).1)
    ensures forall j :: 0 <= j < |ws| ==>
              ResetFrom(ws, devs, i).0[j] == if i <= j then ws[j].(active := false) else ws[j]
    decreases |ws| - i
  {
    hide Owned;
    ResetWs(ws, devs, i);
    if i < |ws| {
      if ws[i].active {
        ActiveHasDevice(ws, devs, i);
        OwnedReleased(ws, devs, i, ws[i].(active := false));
        OwnedReset(ws[i := ws[i].(active := false)], InputDevices.Released(devs, ws[i].inputDevice.value), i + 1);
      } else {
        OwnedReset(ws, devs, i + 1);
      }
    }
  }

  lemma {:induction false} OwnedAssign(ws: seq<Wiimote>, devs: seq<InputDevices.Slot>, calibration: seq<byte>, i: nat)
    requires Owned(ws, devs) && i <= |ws|
    ensures var (ws', devs') := AssignFrom(ws, devs, calibration, i); Owned(ws', devs')
    decreases |ws| - i
  {
    if i < |ws| {
      if ws[i].active || InputDevices.FindUnassigned(devs).None? {
        OwnedAssign(ws, devs, calibration, i + 1);
      } else {
        var k := InputDevices.FindUnassigned(devs).value;
        OwnedAssigned(ws, devs, i, k, Activated(ws[i], k, calibration));
        OwnedAssign(ws[i := Activated(ws[i], k, calibration)], InputDevices.Assigned(devs, k, i), calibration, i + 1);
      }
    }
  }

  // ---------------------------------------------------------------- assignment

  /** Wiimotes that are active stay as they are; the others become active exactly as fresh
      Wiimotes of a gamepad that was waiting. */
  lemma {:induction false} AssignFacts(ws: seq<Wiimote>, devs: seq<InputDevices.Slot>, calibration: seq<byte>, i: nat, j: nat)
    requires i <= |ws| && j < |ws|
    ensures var w := AssignFrom(ws, devs, calibration, i).0[j];
            w == ws[j] || (!ws[j].active && w.inputDevice.Some? && w == Activated(ws[j], w.inputDevice.value, calibration))
    ensures j < i ==> AssignFrom(ws, devs, calibration, i).0[j] == ws[j]
    decreases |ws| - i
  {
    if i < |ws| {
      if ws[i].active || InputDevices.FindUnassigned(devs).None? {
        AssignFacts(ws, devs, calibration, i + 1, j);
      } else {
        var k := InputDevices.FindUnassigned(devs).value;
        AssignFacts(ws[i := Activated(ws[i], k, calibration)], InputDevices.Assigned(devs, k, i), calibration, i + 1, j);
      }
    }
  }

  /** A gamepad that is not waiting is not given away. */
  lemma {:induction false} AssignLeavesOthers(ws: seq<Wiimote>, devs: seq<InputDevices.Slot>, calibration: seq<byte>, i: nat, k: nat)
    requires i <= |ws| && k < |devs| && !InputDevices.Eligible(devs[k])
    ensures AssignFrom(ws, devs, calibration, i).1[k] == devs[k]
    decreases |ws| - i
  {
    if i < |ws| {
      if ws[i].active || InputDevices.FindUnassigned(devs).None? {
        AssignLeavesOthers(ws, devs, calibration, i + 1, k);
      } else {
        var j := InputDevices.FindUnassigned(devs).value;
        AssignLeavesOthers(ws[i := Activated(ws[i], j, calibration)], InputDevices.Assigned(devs, j, i), calibration, i + 1, k);
      }
    }
  }

  predicate Settled(ws: seq<Wiimote>, devs: seq<InputDevices.Slot>) {
    forall j, k :: 0 <= j < |ws| && 0 <= k < |devs| ==> ws[j].active || !InputDevices.Eligible(devs[k])
  }

  /** The assignment is maximal: afterwards no Wiimote is idle while a gamepad waits. */
  lemma {:induction false} AssignIsMaximal(ws: seq<Wiimote>, devs: seq<InputDevices.Slot>, calibration: seq<byte>, i: nat)
    requires i <= |ws| && forall j :: 0 <= j < i ==> ws[j].active || InputDevices.FindUnassigned(devs).None?
    ensures Settled(AssignFrom(ws, devs, calibration, i).0, AssignFrom(ws, devs, calibration, i).1)
    decreases |ws| - i
  {
    if i < |ws| {
      if ws[i].active || InputDevices.FindUnassigned(devs).None? {
        AssignIsMaximal(ws, devs, calibration, i + 1);
      } else {
        var k := InputDevices.FindUnassigned(devs).value;
        AssignIsMaximal(ws[i := Activated(ws[i], k, calibration)], InputDevices.Assigned(devs, k, i), calibration, i + 1);
      }
    }
  }

  // ---------------------------------------------------------------- the invariant

  lemma SoundActivated(t: Tables, w: Wiimote, slot: nat, calibration: seq<byte>)
    requires Sound(t, w) && |calibration| == Registers.EEPROM_FREE_SIZE
    ensures Sound(t, Activated(w, slot, calibration))
  {
    hide Pad.InitPad, Pad.Inv;
    Pad.InitPadInv(t, w.pad, calibration);
    assert Registers.Shaped(Pad.InitPad(w.pad, calibration).mem) by { PadShaped(t, Pad.InitPad(w.pad, calibration)); }
  }

  lemma PadShaped(t: Tables, p: Pad.Pad)
    requires Pad.Inv(t, p)
    ensures Registers.Shaped(p.mem)
  {
  }

  lemma SoundTicked(t: Tables, hci: HciState.Hci, w: Wiimote, i: TickInput, cids: nat)
    requires Sound(t, w) && (w.active ==> TickExpected(t, w, i.input))
    ensures var w' := TickOne(t, hci, w, i, cids);
            && Sound(t, w') && w'.active == w.active && w'.inputDevice == w.inputDevice && w'.completed == w.completed
            && w'.link.conHandle == w.link.conHandle && w'.Connected() == w.Connected()
  {
    hide Pad.Tick, Pad.Inv, Linking.OnTick, Registers.Shaped;
    if w.active {
      TickFrame(t, w, TickEnv(CanRequest(hci), i.ok, cids), i.input);
      if Linking.Operational(w.link) {
        Pad.TickKeepsInv(t, w.pad, i.input);
        PadShaped(t, Pad.Tick(t, w.pad, i.input).0);
      }
    }
  }

  lemma SoundPacket(t: Tables, w: Wiimote, p: seq<byte>)
    requires Sound(t, w) && w.Connected() && PacketExpected(t, w, p)
    ensures Sound(t, OnPacket(t, w, p).0)
  {
    hide OnSignals, SignalsExpected, Pad.Hid, Pad.Inv, DecodeHid, HidWellFormed, WordAt, Val, Registers.Shaped;
    PacketFrame(t, w, p);
    var counted := w.(completed := (w.completed + 1) % COUNTER);
    if PacketChannel(p) == L2cap.SIGNAL_CID {
      SignalsIgnoreCounter(w, counted, L2cap.Signals(PacketPayload(p)));
      SignalsFrame(counted, L2cap.Signals(PacketPayload(p)));
    } else if IsHidOutput(w, p) {
      Pad.HidKeepsInv(t, w.pad, DecodeHid(PacketPayload(p)[1..]));
      PadShaped(t, Pad.Hid(t, w.pad, DecodeHid(PacketPayload(p)[1..])).0);
    }
  }

  /** What the timer does to the Wiimotes up to the collection of the counters. */
  lemma TimerWiimotes(t: Tables, s: Sys, e: Event, i: nat)
    requires Inv(t, s) && e.Timer? && Enabled(t, s, e) && i < |s.ws|
    ensures Sound(t, TimerTicked(t, s, e)[i])
    ensures var w, a := TimerTicked(t, s, e)[i], AfterAssign(s, e.calibration).0[i];
            && w.active == a.active && w.inputDevice == a.inputDevice && w.Connected() == s.ws[i].Connected()
            && (s.ws[i].Connected() ==>
                  w.completed == s.ws[i].completed && w.link.conHandle == s.ws[i].link.conHandle)
            && (s.ws[i].active ==> w.active)
  {
    hide Pad.Inv, Registers.Shaped, Pad.InitPad;
    var a := AfterAssign(s, e.calibration).0;
    if CanRequest(s.hci) {
      AssignFacts(s.ws, InputDevices.Ticked(s.devs), e.calibration, 0, i);
      if a[i] != s.ws[i] {
        SoundActivated(t, s.ws[i], a[i].inputDevice.value, e.calibration);
      }
    }
    SoundTicked(t, s.hci, a[i], e.ticks[i], CidsUpTo(a, i, s.cids));
  }

  lemma TimerKeepsInv(t: Tables, s: Sys, e: Event)
    requires Inv(t, s) && e.Timer? && Enabled(t, s, e)
    ensures Inv(t, Step(t, s, e))
  {
    hide Sound, TickAll;
    var devs := InputDevices.Ticked(s.devs);
    var (a, devs') := AfterAssign(s, e.calibration);
    OwnedTicked(s.ws, s.devs);
    if CanRequest(s.hci) {
      OwnedAssign(s.ws, devs, e.calibration, 0);
    }
    var ws := TimerTicked(t, s, e);
    forall i | 0 <= i < |ws|
      ensures Sound(t, ClearedOne(ws[i])) && ws[i].active == a[i].active && ws[i].inputDevice == a[i].inputDevice
    {
      TimerWiimotes(t, s, e, i);
      SoundCleared(t, ws[i]);
    }
    OwnedSame(a, Cleared(ws), devs');
  }

  lemma SoundCleared(t: Tables, w: Wiimote)
    requires Sound(t, w)
    ensures Sound(t, ClearedOne(w))
  {
  }

  lemma DisconnectKeepsInv(t: Tables, s: Sys, i: nat)
    requires Inv(t, s) && i < |s.ws| && s.ws[i].active
    ensures Inv(t, DisconnectOne(s, i))
  {
    hide Pad.Inv, Registers.Shaped, Owned;
    OwnedDisconnected(s, i);
  }

  lemma RemovedKeepsInv(t: Tables, s: Sys, d: nat)
    requires Inv(t, s)
    ensures Inv(t, Removed(s, d))
  {
    hide Pad.Inv, Registers.Shaped, Owned;
    OwnedUnplugged(s, d);
  }

  lemma CommandKeepsInv(t: Tables, s: Sys, data: seq<byte>)
    requires Inv(t, s) && Enabled(t, s, Command(data))
    ensures Inv(t, HostCommand(s, data))
  {
    hide Pad.Inv, Registers.Shaped, Owned, WordAt, HciState.CommandState;
    if Answering(s, data).Some? {
      DisconnectKeepsInv(t, s, Answering(s, data).value);
    } else {
      OwnedReset(s.ws, s.devs, 0);
    }
  }

  lemma HostDataKeepsInv(t: Tables, s: Sys, packet: seq<byte>)
    requires Inv(t, s) && AclExpected(t, s, packet)
    ensures Inv(t, HostData(t, s, packet))
  {
    hide PacketExpected, OnPacket, Pad.Inv, Registers.Shaped, Owned, WordAt;
    match Receiver(s.ws, packet)
    case Some(i) =>
      PacketFrame(t, s.ws[i], packet[4..]);
      SoundPacket(t, s.ws[i], packet[4..]);
      var (w, es) := OnPacket(t, s.ws[i], packet[4..]);
      assert s.ws[i].inputDevice.Some? by { ActiveHasDevice(s.ws, s.devs, i); }
      OwnedActed(s.ws, s.devs, i, w, es);
    case None =>
  }

  lemma ActiveHasDevice(ws: seq<Wiimote>, devs: seq<InputDevices.Slot>, i: nat)
    requires Owned(ws, devs) && i < |ws| && ws[i].active
    ensures ws[i].inputDevice.Some? && ws[i].inputDevice.value < |devs|
  {
  }

  /** The matching survives every step of everybody. */
  lemma StepKeepsInv(t: Tables, s: Sys, e: Event)
    requires Inv(t, s) && Enabled(t, s, e)
    ensures Inv(t, Step(t, s, e))
  {
    hide Pad.Inv, Registers.Shaped, Owned;
    match e
    case GamepadAdded(d) => OwnedAdded(s.ws, s.devs, d);
    case GamepadRemoved(d) => RemovedKeepsInv(t, s, d);
    case Timer(_, _, _) => TimerKeepsInv(t, s, e);
    case FromController(_) =>
    case Accept(i) => OwnedSame(s.ws, Step(t, s, e).ws, s.devs);
    case Reject(i) => DisconnectKeepsInv(t, s, i);
    case Command(data) => CommandKeepsInv(t, s, data);
    case AclOut(packet) => HostDataKeepsInv(t, s, packet);
  }

  lemma {:induction false} RunKeepsInv(t: Tables, s: Sys, es: seq<Event>)
    requires Inv(t, s) && Legal(t, s, es)
    ensures Inv(t, After(t, s, es))
    decreases |es|
  {
    if es != [] {
      StepKeepsInv(t, s, es[0]);
      RunKeepsInv(t, Step(t, s, es[0]), es[1..]);
    }
  }

  /** In every state of every run: an active Wiimote's gamepad is plugged in and points back, a
      plugged-in gamepad's Wiimote is active and points back, and no gamepad is shared. */
  lemma OwnershipIsAMatching(t: Tables, s: Sys, es: seq<Event>, i: nat, j: nat, k: nat)
    requires Inv(t, s) && Legal(t, s, es)
    ensures var r := After(t, s, es);
            && (i < |r.ws| && r.ws[i].active ==>
                  exists d :: r.ws[i].inputDevice == Some(d) && 0 <= d < |r.devs| && r.devs[d].device.Some? && r.devs[d].wiimote == Some(i))
            && (k < |r.devs| && r.devs[k].device.Some? && r.devs[k].wiimote.Some? ==>
                  exists o :: r.devs[k].wiimote == Some(o) && 0 <= o < |r.ws| && r.ws[o].active && r.ws[o].inputDevice == Some(k))
            && (i < |r.ws| && j < |r.ws| && i != j && r.ws[i].active && r.ws[j].active ==>
                  r.ws[i].inputDevice != r.ws[j].inputDevice)
  {
    hide Pad.Inv, Registers.Shaped, Step, Enabled;
    RunKeepsInv(t, s, es);
  }

  // ---------------------------------------------------------------- the reconnect delay

  function Timers(es: seq<Event>): nat {
    if es == [] then 0 else (if es[0].Timer? then 1 else 0) + Timers(es[1..])
  }

  /** A gamepad that is plugged in, unassigned, and has n timer periods to wait. */
  function Waiting(d: nat, n: nat): InputDevices.Slot {
    InputDevices.Slot(Some(d), None, n)
  }

  /** A timer period with page scan on leaves no Wiimote idle while a gamepad is eligible. */
  lemma TimerSettles(t: Tables, s: Sys, e: Event)
    requires Inv(t, s) && e.Timer? && Enabled(t, s, e) && CanRequest(s.hci)
    ensures Settled(Step(t, s, e).ws, Step(t, s, e).devs)
  {
    hide TickAll, Sound;
    AssignIsMaximal(s.ws, InputDevices.Ticked(s.devs), e.calibration, 0);
    forall i | 0 <= i < |s.ws|
      ensures TimerTicked(t, s, e)[i].active == AfterAssign(s, e.calibration).0[i].active
    {
      TimerWiimotes(t, s, e, i);
    }
  }

  lemma TimerCountsDown(t: Tables, s: Sys, e: Event, k: nat, d: nat, n: nat)
    requires Inv(t, s) && e.Timer? && Enabled(t, s, e)
    requires k < |s.devs| && s.devs[k] == Waiting(d, n) && n > 1
    ensures k < |Step(t, s, e).devs| && Step(t, s, e).devs[k] == Waiting(d, n - 1)
  {
    hide TickAll, Sound;
    AssignLeavesOthers(s.ws, InputDevices.Ticked(s.devs), e.calibration, 0, k);
  }

  lemma {:induction false} CommandLeavesWaiting(t: Tables, s: Sys, data: seq<byte>, k: nat, d: nat, n: nat)
    requires Inv(t, s) && Enabled(t, s, Command(data)) && k < |s.devs| && s.devs[k] == Waiting(d, n)
    ensures k < |HostCommand(s, data).devs| && HostCommand(s, data).devs[k] == Waiting(d, n)
  {
    hide Sound, HciState.CommandState, WordAt;
    if Answering(s, data).Some? {
      DisconnectLeavesWaiting(s, Answering(s, data).value, k, d, n);
    } else {
      ResetLeavesWaiting(s.ws, s.devs, 0, k, d, n);
    }
  }

  lemma DisconnectLeavesWaiting(s: Sys, i: nat, k: nat, d: nat, n: nat)
    requires Owned(s.ws, s.devs) && i < |s.ws| && s.ws[i].active && k < |s.devs| && s.devs[k] == Waiting(d, n)
    ensures DisconnectOne(s, i).devs[k] == Waiting(d, n)
  {
    var (w, es) := Disconnect(s.ws[i]);
    OwnedActed(s.ws, s.devs, i, w, es);
  }

  lemma {:induction false} ResetLeavesWaiting(ws: seq<Wiimote>, devs: seq<InputDevices.Slot>, i: nat, k: nat, d: nat, n: nat)
    requires Owned(ws, devs) && i <= |ws| && k < |devs| && devs[k] == Waiting(d, n)
    ensures ResetFrom(ws, devs, i).1[k] == Waiting(d, n)
    decreases |ws| - i
  {
    if i < |ws| {
      if ws[i].active {
        OwnedReleased(ws, devs, i, ws[i].(active := false));
        ResetLeavesWaiting(ws[i := ws[i].(active := false)],
                           InputDevices.Released(devs, ws[i].inputDevice.value), i + 1, k, d, n);
      } else {
        ResetLeavesWaiting(ws, devs, i + 1, k, d, n);
      }
    }
  }

  lemma HostDataLeavesWaiting(t: Tables, s: Sys, packet: seq<byte>, k: nat, d: nat, n: nat)
    requires Inv(t, s) && AclExpected(t, s, packet) && k < |s.devs| && s.devs[k] == Waiting(d, n)
    ensures k < |HostData(t, s, packet).devs| && HostData(t, s, packet).devs[k] == Waiting(d, n)
  {
    hide PacketExpected, OnPacket, Sound, WordAt;
    match Receiver(s.ws, packet)
    case Some(i) =>
      SoundMeansTables(t, s, i);
      PacketFrame(t, s.ws[i], packet[4..]);
      var (w, es) := OnPacket(t, s.ws[i], packet[4..]);
      OwnedActed(s.ws, s.devs, i, w, es);
    case None =>
  }

  lemma SoundMeansTables(t: Tables, s: Sys, i: nat)
    requires Inv(t, s) && i < |s.ws|
    ensures t.Valid()
  {
  }

  /** Only the timer, and pulling the gamepad out, affect a waiting gamepad. */
  lemma StepLeavesWaiting(t: Tables, s: Sys, e: Event, k: nat, d: nat, n: nat)
    requires Inv(t, s) && Enabled(t, s, e) && e != GamepadRemoved(d)
    requires k < |s.devs| && s.devs[k] == Waiting(d, n) && (e.Timer? ==> n > 1)
    ensures k < |Step(t, s, e).devs| && Step(t, s, e).devs[k] == Waiting(d, if e.Timer? then n - 1 else n)
  {
    hide Sound, Owned;
    match e
    case GamepadAdded(_) =>
    case GamepadRemoved(_) =>
    case Timer(_, _, _) => TimerCountsDown(t, s, e, k, d, n);
    case FromController(_) =>
    case Accept(_) =>
    case Reject(i) => DisconnectLeavesWaiting(s, i, k, d, n);
    case Command(data) => CommandLeavesWaiting(t, s, data, k, d, n);
    case AclOut(packet) => HostDataLeavesWaiting(t, s, packet, k, d, n);
  }

  /** However the run goes, a waiting gamepad that stays plugged in counts down one per timer
      period and is given to nobody before its delay is over. */
  lemma {:induction false} DelayCountsDown(t: Tables, s: Sys, es: seq<Event>, k: nat, d: nat, n: nat)
    requires Inv(t, s) && Legal(t, s, es) && GamepadRemoved(d) !in es
    requires k < |s.devs| && s.devs[k] == Waiting(d, n) && Timers(es) < n
    ensures k < |After(t, s, es).devs| && After(t, s, es).devs[k] == Waiting(d, n - Timers(es))
    decreases |es|
  {
    hide Sound, Owned, Step, Enabled;
    if es != [] {
      StepKeepsInv(t, s, es[0]);
      StepLeavesWaiting(t, s, es[0], k, d, n);
      DelayCountsDown(t, Step(t, s, es[0]), es[1..], k, d, if es[0].Timer? then n - 1 else n);
    }
  }

  // Every way to lose a Wiimote but unplugging sets the delay.

  lemma {:induction false} ResetReleases(ws: seq<Wiimote>, devs: seq<InputDevices.Slot>, i: nat, k: nat)
    requires i <= |ws| && k < |devs|
    ensures var slot := ResetFrom(ws, devs, i).1[k];
            slot == devs[k] || slot == devs[k].(wiimote := None, delay := InputDevices.RECONNECT_DELAY)
    decreases |ws| - i
  {
    if i < |ws| {
      if ws[i].active {
        ResetReleases(ws[i := ws[i].(active := false)],
                      if ws[i].inputDevice.Some? && ws[i].inputDevice.value < |devs|
                      then InputDevices.Released(devs, ws[i].inputDevice.value) else devs,
                      i + 1, k);
      } else {
        ResetReleases(ws, devs, i + 1, k);
      }
    }
  }

  lemma {:induction false} CarryOutSlot(devs: seq<InputDevices.Slot>, es: seq<Effect>, k: nat)
    requires k < |devs|
    ensures var slot := CarryOut(devs, es)[k];
            slot == devs[k] || slot == devs[k].(wiimote := None, delay := InputDevices.RECONNECT_DELAY)
    decreases |es|
  {
    if es != [] {
      CarryOutSlot(if es[0].ReleaseDevice? && es[0].slot < |devs| then InputDevices.Released(devs, es[0].slot) else devs,
                   es[1..], k);
    }
  }

  lemma TimerKeepsAssigned(t: Tables, s: Sys, e: Event, k: nat)
    requires e.Timer? && t.Valid() && Enabled(t, s, e) && k < |s.devs| && s.devs[k].wiimote.Some?
    ensures k < |Step(t, s, e).devs| && Step(t, s, e).devs[k] == s.devs[k]
  {
    hide TickAll;
    AssignLeavesOthers(s.ws, InputDevices.Ticked(s.devs), e.calibration, 0, k);
  }

  /** Whatever step takes the Wiimote away from a gamepad that stays plugged in - a disconnection
      by the host, a rejected or refused connection, a reset - leaves it waiting the full delay. */
  lemma ReleaseStartsDelay(t: Tables, s: Sys, e: Event, k: nat, d: nat)
    requires Inv(t, s) && Enabled(t, s, e) && k < |s.devs| && s.devs[k].device == Some(d) && s.devs[k].wiimote.Some?
    ensures k < |Step(t, s, e).devs|
    ensures var slot := Step(t, s, e).devs[k];
            slot.device.Some? && slot.wiimote.None? ==> slot == Waiting(d, 200)
  {
    hide Sound, Owned, AfterAssign, TimerTicked, PacketExpected, OnPacket, WordAt, HciState.CommandState,
         HciState.CommandWellFormed, HciState.EventExpected, ResetFrom, CarryOut;
    match e
    case Timer(_, _, _) => TimerKeepsAssigned(t, s, e, k);
    case Reject(i) => CarryOutSlot(s.devs, Disconnect(s.ws[i]).1, k);
    case Command(data) =>
      ResetReleases(s.ws, s.devs, 0, k);
      if Answering(s, data).Some? {
        CarryOutSlot(s.devs, Disconnect(s.ws[Answering(s, data).value]).1, k);
      }
    case AclOut(packet) =>
      if Receiver(s.ws, packet).Some? {
        CarryOutSlot(s.devs, OnPacket(t, s.ws[Receiver(s.ws, packet).value], packet[4..]).1, k);
      }
    case _ =>
  }

  /** A gamepad that lost its Wiimote in step e, in any way, is back in the game in the 200th timer
      period at the earliest, and in that period unless no Wiimote is free or page scan is off. */
  lemma ReconnectDelay(t: Tables, s: Sys, e: Event, k: nat, d: nat, es: seq<Event>, e': Event)
    requires Inv(t, s) && Enabled(t, s, e) && k < |s.devs| && s.devs[k].device == Some(d) && s.devs[k].wiimote.Some?
    requires var s1 := Step(t, s, e); k < |s1.devs| && s1.devs[k].device.Some? && s1.devs[k].wiimote.None?
    requires Legal(t, Step(t, s, e), es) && GamepadRemoved(d) !in es && Timers(es) < 200
    requires e'.Timer? && Enabled(t, After(t, Step(t, s, e), es), e')
    ensures var r := After(t, Step(t, s, e), es);
            && k < |r.devs| && r.devs[k].wiimote.None?
            && var r' := Step(t, r, e');
               k < |r'.devs|
               && (Timers(es) + 1 < 200 ==> r'.devs[k].wiimote.None?)
               && (Timers(es) + 1 == 200 && CanRequest(r.hci) ==>
                     r'.devs[k].wiimote.Some? || forall j :: 0 <= j < |r'.ws| ==> r'.ws[j].active)
  {
    hide Sound, Owned, Step, Enabled, Legal;
    var s1 := Step(t, s, e);
    ReleaseStartsDelay(t, s, e, k, d);
    StepKeepsInv(t, s, e);
    DelayCountsDown(t, s1, es, k, d, InputDevices.RECONNECT_DELAY);
    RunKeepsInv(t, s1, es);
    var r := After(t, s1, es);
    if Timers(es) + 1 < InputDevices.RECONNECT_DELAY {
      StepLeavesWaiting(t, r, e', k, d, InputDevices.RECONNECT_DELAY - Timers(es));
    } else {
      LastWait(t, r, e', k, d);
    }
  }

  /** The period in which the delay ends. */
  lemma LastWait(t: Tables, s: Sys, e: Event, k: nat, d: nat)
    requires Inv(t, s) && e.Timer? && Enabled(t, s, e) && k < |s.devs| && s.devs[k] == Waiting(d, 1)
    ensures k < |Step(t, s, e).devs|
    ensures CanRequest(s.hci) ==>
              Step(t, s, e).devs[k].wiimote.Some? || forall j :: 0 <= j < |Step(t, s, e).ws| ==> Step(t, s, e).ws[j].active
  {
    hide Sound, TickAll;
    if CanRequest(s.hci) {
      TimerSettles(t, s, e);
      AssignOnlyAssigns(s.ws, InputDevices.Ticked(s.devs), e.calibration, 0, k);
    }
  }

  lemma {:induction false} AssignOnlyAssigns(ws: seq<Wiimote>, devs: seq<InputDevices.Slot>, calibration: seq<byte>, i: nat, k: nat)
    requires i <= |ws| && k < |devs|
    ensures var slot := AssignFrom(ws, devs, calibration, i).1[k];
            slot.device == devs[k].device && slot.delay == devs[k].delay
            && (slot.wiimote == devs[k].wiimote || slot.wiimote.Some?)
    decreases |ws| - i
  {
    if i < |ws| {
      if ws[i].active || InputDevices.FindUnassigned(devs).None? {
        AssignOnlyAssigns(ws, devs, calibration, i + 1, k);
      } else {
        var j := InputDevices.FindUnassigned(devs).value;
        AssignOnlyAssigns(ws[i := Activated(ws[i], j, calibration)], InputDevices.Assigned(devs, j, i), calibration, i + 1, k);
      }
    }
  }
}
