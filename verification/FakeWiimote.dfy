/**
 * One fake Wiimote (source/fake_wiimote.c): its connection, its pad, and the packets the host
 * sends it. The module first says what each operation does to a Wiimote as a value, then gives
 * the code as a class whose methods are proved to do exactly that.
 */
module FakeWiimote {
  import opened Bytes
  import L2cap
  import ChannelIds
  import Linking
  import Pad
  import opened Registers
  import opened Crypto
  import Reports
  import ButtonMap

  /** num_completed_acl_data_packets is a 32-bit counter. */
  const COUNTER := 0x1_0000_0000

  datatype Wiimote = Wiimote(
    active: bool,
    inputDevice: Option<nat>,
    completed: nat,
    link: Linking.Link,
    pad: Pad.Pad)
  {
    predicate Connected() { active && link.baseband == Linking.BasebandComplete }
  }

  /** What an operation makes happen outside the Wiimote. */
  datatype Effect =
    | LinkSent(out: Linking.Out)
    | ReportSent(report: Pad.Out)
    | DisconnectionComplete(handle: word)
    | ReleaseDevice(slot: nat)

  // ---------------------------------------------------------------- output reports as bytes

  const HID_OUTPUT: byte := 0xA2

  function Bits(b: byte, shift: byte, mask: byte): byte
    requires shift <= 8
  {
    (b >> shift) & mask
  }

  predicate Flag(b: byte, shift: byte)
    requires shift <= 8
  {
    Bits(b, shift, 1) == 1
  }

  /** The report is known and long enough for its fields. */
  predicate HidWellFormed(s: seq<byte>) {
    && |s| >= 2
    && 0x10 <= s[0] <= 0x1a
    && (s[0] == 0x12 ==> |s| >= 3)
    && (s[0] == 0x16 ==> |s| >= 22)
    && (s[0] == 0x17 ==> |s| >= 7)
  }

  /** Bit fields are laid out from the high bit down. */
  function DecodeHid(s: seq<byte>): (c: Pad.HidCommand)
    requires HidWellFormed(s)
    ensures Pad.ValidCommand(c)
  {
    var ack := Flag(s[1], 1);
    if s[0] == 0x10 then Pad.Rumble
    else if s[0] == 0x11 then Pad.Led(Bits(s[1], 4, 0xF), ack)
    else if s[0] == 0x12 then Pad.ReportMode(s[2], Flag(s[1], 2), ack)
    else if s[0] == 0x13 then Pad.IrEnable(Flag(s[1], 2), ack)
    else if s[0] == 0x15 then Pad.RequestStatus
    else if s[0] == 0x16 then
      Pad.WriteData(WriteRequest(Bits(s[1], 2, 3) as nat, Bits(s[2], 1, 0x7F) as nat, Big16(s[3], s[4]), s[5] as nat, s[6..22]))
    else if s[0] == 0x17 then
      Pad.ReadData(ReadRequest(Bits(s[1], 2, 3) as nat, Bits(s[2], 1, 0x7F) as nat, Big16(s[3], s[4]), Big16(s[5], s[6])))
    else if s[0] == 0x18 then Pad.SpeakerData
    else Pad.FeatureAck(s[0], ack)
  }

  // ---------------------------------------------------------------- operations on values

  /** fake_wiimote_init_state; the caller then sets active. */
  function InitState(w: Wiimote, slot: nat, calibration: seq<byte>): Wiimote {
    w.(inputDevice := Some(slot), completed := 0, link := Linking.InitLink(w.link),
       pad := Pad.InitPad(w.pad, calibration))
  }

  /** fake_wiimote_disconnect. The pointer to the input device goes stale, it is not cleared. */
  function Disconnect(w: Wiimote): (Wiimote, seq<Effect>) {
    (w.(active := false),
     (if w.inputDevice.Some? then [ReleaseDevice(w.inputDevice.value)] else [])
     + (if w.link.baseband == Linking.BasebandComplete then [DisconnectionComplete(w.link.conHandle)] else []))
  }

  function LinkEffects(outs: seq<Linking.Out>): seq<Effect> {
    seq(|outs|, i requires 0 <= i < |outs| => LinkSent(outs[i]))
  }

  function PadEffects(outs: seq<Pad.Out>): seq<Effect> {
    seq(|outs|, i requires 0 <= i < |outs| => ReportSent(outs[i]))
  }

  /** One signalling command. */
  function OnSignal(w: Wiimote, s: L2cap.Signal): (Wiimote, seq<Effect>)
    requires Linking.SignalSized(s) && Linking.Expected(w.link, Linking.Decode(s))
  {
    var r := Linking.Decode(s);
    if Linking.Refused(r) then Disconnect(w)
    else
      var (link, outs) := Linking.OnRequest(w.link, r);
      (w.(link := link), LinkEffects(outs))
  }

  /** All commands of a signalling packet are well-formed and expected when their turn comes. */
  predicate SignalsExpected(w: Wiimote, ss: seq<L2cap.Signal>)
    decreases |ss|
  {
    ss == [] ||
    (Linking.SignalSized(ss[0]) && Linking.Expected(w.link, Linking.Decode(ss[0]))
     && SignalsExpected(OnSignal(w, ss[0]).0, ss[1..]))
  }

  function OnSignals(w: Wiimote, ss: seq<L2cap.Signal>): (Wiimote, seq<Effect>)
    requires SignalsExpected(w, ss)
    decreases |ss|
  {
    if ss == [] then (w, [])
    else
      var (w1, e1) := OnSignal(w, ss[0]);
      var (w2, e2) := OnSignals(w1, ss[1..]);
      (w2, e1 + e2)
  }

  /** An L2CAP packet: length, channel, payload. */
  predicate PacketWellFormed(p: seq<byte>) {
    |p| >= 4 && 4 + Val(WordAt(p, 0)) <= |p|
  }

  function PacketChannel(p: seq<byte>): word
    requires PacketWellFormed(p)
  {
    WordAt(p, 2)
  }

  function PacketPayload(p: seq<byte>): seq<byte>
    requires PacketWellFormed(p)
  {
    p[4..4 + Val(WordAt(p, 0))]
  }

  /** The packet carries an output report for the interrupt channel. */
  predicate IsHidOutput(w: Wiimote, p: seq<byte>)
    requires PacketWellFormed(p)
  {
    && PacketChannel(p) != L2cap.SIGNAL_CID
    && Linking.ChannelOf(w.link, PacketChannel(p)).Some?
    && w.link.Get(Linking.ChannelOf(w.link, PacketChannel(p)).value).psm == L2cap.PSM_HID_INTR
    && |PacketPayload(p)| >= 2 && PacketPayload(p)[0] == HID_OUTPUT
  }

  /** What the handlers assert about the packet. */
  predicate PacketExpected(t: Tables, w: Wiimote, p: seq<byte>) {
    && PacketWellFormed(p)
    && (PacketChannel(p) == L2cap.SIGNAL_CID ==>
          && L2cap.SignalsWellFormed(PacketPayload(p))
          && SignalsExpected(w, L2cap.Signals(PacketPayload(p))))
    && (IsHidOutput(w, p) ==>
          && HidWellFormed(PacketPayload(p)[1..])
          && Shaped(w.pad.mem)
          && Pad.HidReadable(t, w.pad, DecodeHid(PacketPayload(p)[1..])))
  }

  /** fake_wiimote_handle_acl_data_out_request_from_host */
  ghost function OnPacket(t: Tables, w: Wiimote, p: seq<byte>): (Wiimote, seq<Effect>)
    requires t.Valid() && PacketExpected(t, w, p)
  {
    var counted := w.(completed := (w.completed + 1) % COUNTER);
    if PacketChannel(p) == L2cap.SIGNAL_CID then
      SignalsIgnoreCounter(w, counted, L2cap.Signals(PacketPayload(p)));
      OnSignals(counted, L2cap.Signals(PacketPayload(p)))
    else if IsHidOutput(w, p) then
      var (pad, outs) := Pad.Hid(t, w.pad, DecodeHid(PacketPayload(p)[1..]));
      (counted.(pad := pad), PadEffects(outs))
    else (counted, [])
  }

  lemma SignalsIgnoreCounter(w: Wiimote, v: Wiimote, ss: seq<L2cap.Signal>)
    requires SignalsExpected(w, ss) && v.link == w.link && v.inputDevice == w.inputDevice
    ensures SignalsExpected(v, ss)
    decreases |ss|
  {
    if ss != [] {
      SignalsIgnoreCounter(OnSignal(w, ss[0]).0, OnSignal(v, ss[0]).0, ss[1..]);
    }
  }

  /** Which injections of a linking tick succeed. */
  datatype Injections = Injections(request: bool, connect: bool, cntl: bool, intr: bool)

  /** What a linking tick depends on: page scan, the injections, and how many identifiers have been
      given out before. */
  function TickEnv(canRequest: bool, ok: Injections, cids: nat): Linking.TickEnv {
    Linking.TickEnv(canRequest, ChannelIds.CidOf(cids), ok.request, ok.cntl, ok.intr)
  }

  /** fake_wiimote_tick */
  ghost function OnTick(t: Tables, w: Wiimote, env: Linking.TickEnv, input: Pad.Input): (Wiimote, seq<Effect>)
    requires t.Valid() && TickExpected(t, w, input)
  {
    if Linking.Operational(w.link) then
      var (pad, outs) := Pad.Tick(t, w.pad, input);
      (w.(pad := pad), PadEffects(outs))
    else
      var (link, outs) := Linking.OnTick(w.link, env);
      (w.(link := link), LinkEffects(outs))
  }

  predicate TickExpected(t: Tables, w: Wiimote, input: Pad.Input) {
    Shaped(w.pad.mem) && Pad.ValidInput(input)
    && (Linking.Operational(w.link) ==> Pad.TickReadable(t, w.pad, input))
  }

  function OnAccept(w: Wiimote, handle: word): Wiimote {
    w.(link := Linking.OnAccept(w.link, handle))
  }

  // ---------------------------------------------------------------- what operations leave alone

  /** Handling a packet never changes the device, the handle or the baseband state; it may end the
      Wiimote's activity, and then exactly if it releases the device it has. */
  lemma SignalsFrame(w: Wiimote, ss: seq<L2cap.Signal>)
    requires SignalsExpected(w, ss)
    ensures var (w', es) := OnSignals(w, ss);
            && w'.inputDevice == w.inputDevice && w'.completed == w.completed && w'.pad == w.pad
            && w'.link.baseband == w.link.baseband && w'.link.conHandle == w.link.conHandle
            && (w'.active ==> w.active)
            && (w.active && !w'.active && w.inputDevice.Some? ==> ReleaseDevice(w.inputDevice.value) in es)
            && (forall k: nat :: ReleaseDevice(k) in es ==> !w'.active && w.inputDevice == Some(k))
    decreases |ss|
  {
    if ss != [] {
      SignalFrame(w, ss[0]);
      SignalsFrame(OnSignal(w, ss[0]).0, ss[1..]);
    }
  }

  lemma SignalFrame(w: Wiimote, s: L2cap.Signal)
    requires Linking.SignalSized(s) && Linking.Expected(w.link, Linking.Decode(s))
    ensures var (w', es) := OnSignal(w, s);
            && w'.inputDevice == w.inputDevice && w'.completed == w.completed && w'.pad == w.pad
            && w'.link.baseband == w.link.baseband && w'.link.conHandle == w.link.conHandle
            && (w'.active ==> w.active)
            && (w.active && !w'.active && w.inputDevice.Some? ==> ReleaseDevice(w.inputDevice.value) in es)
            && (forall k: nat :: ReleaseDevice(k) in es ==> !w'.active && w.inputDevice == Some(k))
  {
    hide Linking.OnRequest, Linking.Expected;
    var r := Linking.Decode(s);
    if !Linking.Refused(r) {
      Linking.RequestFacts(w.link, r, Linking.Cntl);
    }
  }

  lemma PacketFrame(t: Tables, w: Wiimote, p: seq<byte>)
    requires t.Valid() && PacketExpected(t, w, p)
    ensures var (w', es) := OnPacket(t, w, p);
            && w'.inputDevice == w.inputDevice && w'.completed == (w.completed + 1) % COUNTER
            && w'.link.baseband == w.link.baseband && w'.link.conHandle == w.link.conHandle
            && (w'.active ==> w.active)
            && (w.active && !w'.active && w.inputDevice.Some? ==> ReleaseDevice(w.inputDevice.value) in es)
            && (forall k: nat :: ReleaseDevice(k) in es ==> !w'.active && w.inputDevice == Some(k))
  {
    hide OnSignals, SignalsExpected, Pad.Hid, DecodeHid, HidWellFormed, WordAt, Val;
    var counted := w.(completed := (w.completed + 1) % COUNTER);
    if PacketChannel(p) == L2cap.SIGNAL_CID {
      SignalsIgnoreCounter(w, counted, L2cap.Signals(PacketPayload(p)));
      SignalsFrame(counted, L2cap.Signals(PacketPayload(p)));
    }
  }

  lemma TickFrame(t: Tables, w: Wiimote, env: Linking.TickEnv, input: Pad.Input)
    requires t.Valid() && TickExpected(t, w, input)
    ensures var (w', es) := OnTick(t, w, env, input);
            && w'.active == w.active && w'.inputDevice == w.inputDevice && w'.completed == w.completed
            && w'.link.conHandle == w.link.conHandle
            && (w'.link.baseband == Linking.BasebandComplete <==> w.link.baseband == Linking.BasebandComplete)
            && forall k: nat :: ReleaseDevice(k) !in es
  {
    hide Pad.Tick, Linking.LinkingTick, Pad.TickReadable;
    Linking.TickFacts(w.link, env);
  }

  // ---------------------------------------------------------------- the code

  class Device {
    const tables: Tables

    var active: bool
    var inputDevice: Option<nat>
    var completed: nat

    var conHandle: word
    var baseband: Linking.Baseband
    var acl: Linking.Acl
    var cntl: Linking.Channel
    var intr: Linking.Channel

    var eeprom: seq<byte>
    var ir: seq<byte>
    var ext: seq<byte>
    var key: Key
    var keyDirty: bool
    var req: ReadRequest

    var mode: byte
    var continuous: bool
    var leds: byte
    var irEnabled: bool
    var buttons: word
    var inputDirty: bool
    var acc: Reports.Acc
    var curExt: Pad.Extension
    var newExt: Pad.Extension

    ghost function LinkView(): Linking.Link
      reads `conHandle, `baseband, `acl, `cntl, `intr
    {
      Linking.Link(conHandle, baseband, acl, cntl, intr)
    }

    ghost function MemView(): Memory
      reads `eeprom, `ir, `ext, `key, `keyDirty, `req
    {
      Memory(eeprom, ir, ext, key, keyDirty, req)
    }

    ghost function PadView(): Pad.Pad
      reads `eeprom, `ir, `ext, `key, `keyDirty, `req
      reads `mode, `continuous, `leds, `irEnabled, `buttons, `inputDirty, `acc, `curExt, `newExt
    {
      Pad.Pad(MemView(), mode, continuous, leds, irEnabled, buttons, inputDirty, acc, curExt, newExt)
    }

    ghost function View(): Wiimote
      reads this
    {
      Wiimote(active, inputDevice, completed, LinkView(), PadView())
    }

    /** A Wiimote before its first activation. */
    constructor (tables: Tables)
      requires tables.Valid()
      ensures this.tables == tables && !active && Shaped(MemView())
    {
      this.tables := tables;
      active, inputDevice, completed := false, None, 0;
      conHandle, baseband, acl := 0, Linking.BasebandInactive, Linking.AclInactive;
      cntl := Linking.Channel(false, Linking.Inactive, 0, 0, 0, 0);
      intr := Linking.Channel(false, Linking.Inactive, 0, 0, 0, 0);
      eeprom, ir, ext := Fill(EEPROM_FREE_SIZE, 0), Fill(REGISTERS_SIZE, 0), Fill(REGISTERS_SIZE, 0);
      key, keyDirty, req := ZERO_KEY, true, ReadRequest(0, 0, 0, 0);
      mode, continuous, leds, irEnabled, buttons, inputDirty := 0, false, 0, false, 0, false;
      acc := Reports.Acc(0, 0, 0);
      curExt, newExt := Pad.NoExtension, Pad.NoExtension;
    }

    // -- registers

    /** extension_read_data */
    method ExtensionRead(address: nat, size: nat) returns (data: Option<seq<byte>>)
      requires tables.Valid() && Shaped(MemView())
      requires address + size <= REGISTERS_SIZE ==> Decryptable(tables, ext)
      modifies `key, `keyDirty
      ensures data.Some? <==> address + size <= REGISTERS_SIZE
      ensures data.Some? ==> (MemView(), data.value) == ReadExt(tables, old(MemView()), address, size)
      ensures data.None? ==> MemView() == old(MemView())
    {
      hide KeyOf, IsKeyOfMaker;
      if address + size > REGISTERS_SIZE {
        return None;
      }
      var plain := ext[address..address + size];
      if ext[ENCRYPTION_AT] != ENCRYPTION_ENABLED {
        return Some(plain);
      }
      if keyDirty {
        key := GenerateKey(tables, ext[KEY_DATA_BEGIN..KEY_DATA_END]);
        keyDirty := false;
      }
      var dst := new byte[size](i requires 0 <= i < size => plain[i]);
      assert dst[..size] == plain && dst[size..] == [];
      EncryptInPlace(dst, key, address, size);
      assert dst[..] == Encrypt(key, address, plain);
      return Some(dst[..]);
    }

    /** extension_write_data */
    method ExtensionWrite(address: nat, src: seq<byte>) returns (ok: bool)
      requires Shaped(MemView())
      modifies `ext, `keyDirty
      ensures ok <==> address + |src| <= REGISTERS_SIZE
      ensures MemView() == if ok then WriteExt(old(MemView()), address, src) else old(MemView())
    {
      if address + |src| > REGISTERS_SIZE {
        return false;
      }
      if address + |src| > KEY_DATA_BEGIN && address < KEY_DATA_END {
        keyDirty := true;
      }
      ext := Splice(ext, address, src);
      return true;
    }

    /** fake_wiimote_process_read_request */
    method ProcessReadRequest() returns (reply: Option<Reply>)
      requires tables.Valid() && Shaped(MemView()) && (ChunkReadsExt(req) ==> Decryptable(tables, ext))
      modifies `req, `key, `keyDirty
      ensures (MemView(), reply) == ProcessRead(tables, old(MemView()), buttons)
    {
      hide KeyOf;
      var size := Min(CHUNK, req.size);
      if size == 0 {
        return None;
      }
      var error := ERROR_SUCCESS;
      var address := req.address;
      var data := Fill(size, 0);
      if req.space == SPACE_EEPROM {
        if address + req.size > EEPROM_FREE_SIZE {
          error := ERROR_INVALID_ADDRESS;
        } else {
          data := eeprom[address..address + size];
        }
      } else if req.space == SPACE_I2C || req.space == SPACE_I2C_ALT {
        if req.slave == EEPROM_I2C_ADDR {
          error := ERROR_INVALID_ADDRESS;
        } else if req.slave == EXTENSION_I2C_ADDR {
          var r := ExtensionRead(address, size);
          if r.Some? {
            data := r.value;
          } else {
            error := ERROR_NACK;
          }
        } else if req.slave == CAMERA_I2C_ADDR {
          if address + size > REGISTERS_SIZE {
            error := ERROR_NACK;
          } else {
            data := ir[address..address + size];
          }
        }
      } else {
        error := ERROR_INVALID_SPACE;
      }
      if error != ERROR_SUCCESS {
        req := req.(size := 0);
        return Some(Reply(buttons, CHUNK - 1, error, address, Fill(CHUNK, 0)));
      }
      req := req.(address := (address + size) % 0x1_0000, size := req.size - size);
      return Some(Reply(buttons, size - 1, error, address, Padded(data)));
    }

    /** fake_wiimote_process_write_request */
    method ProcessWriteRequest(w: WriteRequest) returns (error: Option<nat>)
      requires Shaped(MemView()) && |w.data| == CHUNK
      modifies `eeprom, `ir, `ext, `keyDirty
      ensures (MemView(), error) == ProcessWrite(old(MemView()), w)
    {
      if w.size == 0 || w.size > CHUNK {
        return None;
      }
      var src := w.data[..w.size];
      if w.space == SPACE_EEPROM {
        if w.address + w.size > EEPROM_FREE_SIZE {
          return Some(ERROR_INVALID_ADDRESS);
        }
        eeprom := Splice(eeprom, w.address, src);
      } else if w.space == SPACE_I2C || w.space == SPACE_I2C_ALT {
        if w.slave == EEPROM_I2C_ADDR {
          return Some(ERROR_INVALID_ADDRESS);
        } else if w.slave == EXTENSION_I2C_ADDR {
          var ok := ExtensionWrite(w.address, src);
          if !ok {
            return Some(ERROR_NACK);
          }
        } else if w.slave == CAMERA_I2C_ADDR {
          if w.address + w.size > REGISTERS_SIZE {
            return Some(ERROR_NACK);
          }
          ir := Splice(ir, w.address, src);
        }
      } else {
        return Some(ERROR_INVALID_SPACE);
      }
      return Some(ERROR_SUCCESS);
    }

    // -- extension port and input

    method ResetExtensionState()
      modifies `ext, `key, `keyDirty
      ensures PadView() == Pad.ResetExtension(old(PadView()))
    {
      ext := Pad.FreshExtension(curExt);
      key, keyDirty := ZERO_KEY, true;
    }

    /** fake_wiimote_process_extension_change */
    method ProcessExtensionChange() returns (status: Option<Pad.Out>)
      modifies `mode, `curExt, `ext, `key, `keyDirty
      ensures status.None? <==> old(newExt == curExt)
      ensures status.None? ==> PadView() == old(PadView())
      ensures status.Some? ==>
                PadView() == Pad.ChangeExtension(old(PadView())) && status.value == Pad.Status(PadView())
    {
      if newExt == curExt {
        return None;
      }
      mode := Reports.REPORT_DISABLED;
      if curExt == Pad.NoExtension {
        curExt := newExt;
      } else {
        curExt := Pad.NoExtension;
      }
      ResetExtensionState();
      return Some(Pad.StatusReport(buttons, leds, irEnabled, curExt != Pad.NoExtension));
    }

    /** memmismatch: the first index at which the extension bytes differ from data, or its size. */
    method FirstMismatch(data: seq<byte>) returns (i: nat)
      requires |data| <= |ext|
      ensures i <= |data| && ext[..i] == data[..i] && (i < |data| ==> ext[i] != data[i])
    {
      i := 0;
      while i < |data| && ext[i] == data[i]
        invariant i <= |data| && ext[..i] == data[..i]
      {
        i := i + 1;
      }
    }

    /** fake_wiimote_report_input_ext: only what differs is copied, and only a difference counts. */
    method ReportInputExt(b: word, data: seq<byte>)
      requires |data| <= |ext|
      modifies `buttons, `ext, `inputDirty
      ensures buttons == b && MemView() == old(MemView()).(ext := Splice(old(ext), 0, data))
      ensures inputDirty == (old(inputDirty) || b != old(buttons) || Splice(old(ext), 0, data) != old(ext))
    {
      var i := FirstMismatch(data);
      if buttons != b || i != |data| {
        buttons := b;
        if i != |data| {
          ext := Splice(ext, i, data[i..]);
        }
        inputDirty := true;
      }
      assert ext == Splice(old(ext), 0, data);
      assert i < |data| ==> ext[i] != old(ext[i]);
    }

    /** The input callbacks of one gamepad sample. */
    method ReportSample(i: Pad.Input)
      requires Shaped(MemView()) && i.Sample? && Pad.ValidInput(i)
      modifies `acc, `ir, `buttons, `ext, `inputDirty
      ensures PadView() == Pad.Sampled(old(PadView()), i)
    {
      hide ButtonMap.CameraBytes, Pad.MaskAcc, MemView, Pad.WithDots;
      if i.acc.Some? {
        acc := Pad.MaskAcc(i.acc.value);
      }
      ReportDots(i);
      FieldsOfView();
      if i.extData.Some? {
        ReportInputExt(i.buttons, i.extData.value);
      } else {
        ReportInput(i.buttons);
      }
    }

    lemma MemOfPad()
      ensures PadView().mem == MemView()
    {
    }

    lemma FieldsOfView()
      ensures MemView().ext == ext && MemView().req == req
    {
    }

    /** fake_wiimote_report_ir_dots */
    method ReportDots(i: Pad.Input)
      requires Shaped(MemView()) && i.Sample?
      modifies `ir
      ensures MemView() == Pad.WithDots(old(MemView()), i.x0, i.y0, i.x1, i.y1)
    {
      hide ButtonMap.CameraBytes;
      ir := Splice(ir, CAMERA_DATA_AT, ButtonMap.CameraBytes(ir[CAMERA_MODE_AT], i.x0, i.y0, i.x1, i.y1));
    }

    /** fake_wiimote_report_input */
    method ReportInput(b: word)
      modifies `buttons, `inputDirty
      ensures buttons == b && inputDirty == (old(inputDirty) || b != old(buttons))
    {
      if buttons != b {
        buttons := b;
        inputDirty := true;
      }
    }

    /** fake_wiimote_send_data_report: the segments are placed into a 21-byte buffer. */
    method SendDataReport() returns (outs: seq<Pad.Out>)
      requires tables.Valid() && Shaped(MemView())
      requires Pad.Reporting(PadView()) && Reports.ExtSize(mode) > 0 ==> Decryptable(tables, ext)
      modifies `key, `keyDirty, `inputDirty
      ensures (PadView(), outs) == Pad.SendReport(tables, old(PadView()))
    {
      hide KeyOf, Reports.ButtonWord, Reports.AccBytes, Reports.ButtonBytes;
      if mode == Reports.REPORT_DISABLED || !(continuous || inputDirty) {
        return [];
      }
      var extSize := Reports.ExtSize(mode);
      var camera := ir[CAMERA_DATA_AT..CAMERA_DATA_AT + Reports.IrSize(mode)];
      var extension: seq<byte> := [];
      if extSize > 0 {
        var r := ExtensionRead(0, extSize);
        extension := r.value;
      }
      var payload := AssembleReport(camera, extension);
      inputDirty := false;
      return [Pad.DataReport(mode, payload)];
    }

    method AssembleReport(camera: seq<byte>, extension: seq<byte>) returns (payload: seq<byte>)
      requires |camera| == Reports.IrSize(mode) && |extension| == Reports.ExtSize(mode)
      ensures payload == Reports.Payload(mode, buttons, acc, camera, extension)
    {
      hide Reports.ButtonWord, Reports.AccBytes, Reports.ButtonBytes, Put;
      hide Reports.AccOffset, Reports.IrOffset, Reports.ExtOffset, Reports.IrSize, Reports.ExtSize;
      Reports.SegmentsTile(mode);
      var data: seq<byte> := Fill(Reports.CONTROLLER_DATA_BYTES, 0);
      ghost var blank := data;
      var word := buttons;
      var accBytes: seq<byte>, btnBytes: seq<byte> := [], [];
      PutNothing();
      if Reports.AccSize(mode) > 0 {
        accBytes := Reports.AccBytes(acc);
        data := Place(data, Reports.AccOffset(mode), accBytes);
        word := Reports.ButtonWord(buttons, acc);
      }
      if Reports.IrSize(mode) > 0 {
        data := Place(data, Reports.IrOffset(mode), camera);
      }
      if Reports.ExtSize(mode) > 0 {
        data := Place(data, Reports.ExtOffset(mode), extension);
      }
      if Reports.HasBtn(mode) {
        btnBytes := Reports.ButtonBytes(word);
        data := Place(data, 0, btnBytes);
      }
      Assembled(blank, btnBytes, accBytes, camera, extension);
      payload := data[..Reports.ReportSize(mode)];
    }

    method Place(data: seq<byte>, at: nat, segment: seq<byte>) returns (r: seq<byte>)
      requires at + |segment| <= |data|
      ensures r == Put(data, at, segment)
    {
      r := Splice(data, at, segment);
    }

    static lemma PutNothing()
      ensures forall data, at: nat :: at <= |data| ==> Put(data, at, []) == data
    {
    }

    /** An empty segment leaves no trace. */
    static ghost function Put(data: seq<byte>, at: nat, segment: seq<byte>): (r: seq<byte>)
      requires at + |segment| <= |data|
      ensures |r| == |data|
    {
      if segment == [] then data else Splice(data, at, segment)
    }

    static lemma PutHas(data: seq<byte>, at: nat, segment: seq<byte>)
      requires at + |segment| <= |data|
      ensures Put(data, at, segment)[at..at + |segment|] == segment
    {
    }

    static lemma PutKeeps(data: seq<byte>, at: nat, segment: seq<byte>, lo: nat, hi: nat)
      requires at + |segment| <= |data| && lo <= hi <= |data| && (hi <= at || at + |segment| <= lo)
      ensures Put(data, at, segment)[lo..hi] == data[lo..hi]
    {
    }

    /** Segments placed side by side, in the order of the code, are their concatenation. */
    static lemma Assembled(data: seq<byte>, b: seq<byte>, a: seq<byte>, i: seq<byte>, e: seq<byte>)
      requires |b| + |a| + |i| + |e| <= |data|
      ensures var d := Put(Put(Put(Put(data, |b|, a), |b| + |a|, i), |b| + |a| + |i|, e), 0, b);
              d[..|b| + |a| + |i| + |e|] == b + a + i + e
    {
      hide Put;
      var n1, n2, n3 := |b| + |a|, |b| + |a| + |i|, |b| + |a| + |i| + |e|;
      var d1 := Put(data, |b|, a);
      var d2 := Put(d1, n1, i);
      var d3 := Put(d2, n2, e);
      var d4 := Put(d3, 0, b);
      PutHas(data, |b|, a);
      PutHas(d1, n1, i);
      PutKeeps(d1, n1, i, |b|, n1);
      PutHas(d2, n2, e);
      PutKeeps(d2, n2, e, |b|, n1);
      PutKeeps(d2, n2, e, n1, n2);
      PutHas(d3, 0, b);
      PutKeeps(d3, 0, b, |b|, n1);
      PutKeeps(d3, 0, b, n1, n2);
      PutKeeps(d3, 0, b, n2, n3);
      Slices(d4, |b|, n1, n2, n3);
    }

    static lemma Slices(d: seq<byte>, i: nat, j: nat, k: nat, n: nat)
      requires i <= j <= k <= n <= |d|
      ensures d[..n] == d[0..i] + d[i..j] + d[j..k] + d[k..n]
    {
      assert d[..j] == d[0..i] + d[i..j];
      assert d[..k] == d[..j] + d[j..k];
      assert d[..n] == d[..k] + d[k..n];
    }

    /** The operational part of a tick. */
    method TickPad(i: Pad.Input) returns (outs: seq<Pad.Out>)
      requires tables.Valid() && Shaped(MemView()) && Pad.ValidInput(i) && Pad.TickReadable(tables, PadView(), i)
      modifies `req, `key, `keyDirty, `mode, `curExt, `newExt, `ext, `acc, `ir, `buttons, `inputDirty
      ensures (PadView(), outs) == Pad.Tick(tables, old(PadView()), i)
    {
      hide KeyOf, ProcessRead, Pad.SendReport, Pad.Sampled, Pad.ResetExtension, MemView;
      FieldsOfView();
      var reply := TickRead();
      if reply.Some? {
        return [Pad.ReadReply(reply.value)];
      }
      var status := ProcessExtensionChange();
      if status.Some? {
        return [status.value];
      }
      match i {
        case SwitchExtension(e) =>
          newExt := e;
          return [];
        case Sample(_, _, _, _, _, _, _) =>
          ReportSample(i);
          FieldsOfView();
          outs := SendDataReport();
      }
    }

    /** The next chunk of a pending read. */
    method TickRead() returns (reply: Option<Reply>)
      requires tables.Valid() && Shaped(MemView()) && (ChunkReadsExt(req) ==> Decryptable(tables, ext))
      modifies `req, `key, `keyDirty
      ensures reply.Some? <==> old(req.size) > 0
      ensures reply.None? ==> PadView() == old(PadView())
      ensures reply.Some? ==>
                var (mem, r) := ProcessRead(tables, old(MemView()), buttons);
                PadView() == old(PadView()).(mem := mem) && reply == r
    {
      hide KeyOf, ProcessRead;
      ghost var m := MemView();
      reply := ProcessReadRequest();
      RepliesWhileReading(tables, m, buttons);
    }

    static lemma RepliesWhileReading(t: Tables, m: Memory, b: word)
      requires t.Valid() && Shaped(m) && (ChunkReadsExt(m.req) ==> Decryptable(t, m.ext))
      ensures ProcessRead(t, m, b).1.Some? <==> m.req.size > 0
      ensures m.req.size == 0 ==> ProcessRead(t, m, b).0 == m
    {
      hide KeyOf;
    }

    /** handle_hid_intr_data_output */
    method HandleHid(c: Pad.HidCommand) returns (outs: seq<Pad.Out>)
      requires tables.Valid() && Shaped(MemView()) && Pad.ValidCommand(c) && Pad.HidReadable(tables, PadView(), c)
      modifies `leds, `mode, `continuous, `irEnabled, `eeprom, `ir, `ext, `key, `keyDirty, `req
      ensures (PadView(), outs) == Pad.Hid(tables, old(PadView()), c)
    {
      hide KeyOf, ProcessRead, ProcessWrite;
      outs := [];
      match c {
        case Rumble =>
        case SpeakerData =>
        case Led(l, ack) =>
          leds := l;
          if ack {
            outs := [Pad.AckReport(buttons, Pad.REPORT_LED, ERROR_SUCCESS)];
          }
        case ReportMode(m, cont, ack) =>
          mode, continuous := m, cont;
          if ack {
            outs := [Pad.AckReport(buttons, Pad.REPORT_MODE, ERROR_SUCCESS)];
          }
        case IrEnable(enable, ack) =>
          irEnabled := enable;
          if ack {
            outs := [Pad.AckReport(buttons, Pad.REPORT_IR_ENABLE, ERROR_SUCCESS)];
          }
        case FeatureAck(id, ack) =>
          if ack {
            outs := [Pad.AckReport(buttons, id, ERROR_SUCCESS)];
          }
        case RequestStatus =>
          outs := [Pad.StatusReport(buttons, leds, irEnabled, curExt != Pad.NoExtension)];
        case WriteData(w) =>
          outs := HandleWrite(w);
        case ReadData(r) =>
          outs := HandleRead(r);
      }
    }

    /** handle_hid_intr_data_output, write_data */
    method HandleWrite(w: WriteRequest) returns (outs: seq<Pad.Out>)
      requires tables.Valid() && Shaped(MemView()) && |w.data| == CHUNK
      modifies `eeprom, `ir, `ext, `keyDirty
      ensures (PadView(), outs) == Pad.Hid(tables, old(PadView()), Pad.WriteData(w))
    {
      hide ProcessWrite;
      var error := ProcessWriteRequest(w);
      outs := if error.Some? then [Pad.AckReport(buttons, Pad.REPORT_WRITE_DATA, error.value)] else [];
    }

    /** handle_hid_intr_data_output, read_data */
    method HandleRead(r: ReadRequest) returns (outs: seq<Pad.Out>)
      requires tables.Valid() && Shaped(MemView()) && Pad.ValidCommand(Pad.ReadData(r))
      requires Pad.HidReadable(tables, PadView(), Pad.ReadData(r))
      modifies `key, `keyDirty, `req
      ensures (PadView(), outs) == Pad.Hid(tables, old(PadView()), Pad.ReadData(r))
    {
      hide ProcessRead, KeyOf;
      if req.size > 0 {
        return [Pad.AckReport(buttons, Pad.REPORT_READ_DATA, ERROR_BUSY)];
      }
      req := r;
      var reply := ProcessReadRequest();
      outs := if reply.Some? then [Pad.ReadReply(reply.value)] else [];
    }

    // -- connection

    method SetChannel(w: Linking.Which, c: Linking.Channel)
      modifies `cntl, `intr
      ensures LinkView() == old(LinkView()).Set(w, c)
    {
      match w
      case Cntl => cntl := c;
      case Intr => intr := c;
    }

    function GetChannel(w: Linking.Which): (c: Linking.Channel)
      reads `conHandle, `baseband, `acl, `cntl, `intr
      ensures c == LinkView().Get(w)
    {
      match w case Cntl => cntl case Intr => intr
    }

    /** check_send_config_for_new_channel; ok is the outcome of the injection. */
    method CheckSendConfig(w: Linking.Which, ok: bool) returns (outs: seq<Linking.Out>)
      modifies `cntl, `intr
      ensures (LinkView(), outs) == Linking.ConfigureChannel(old(LinkView()), w, ok)
    {
      var c := GetChannel(w);
      outs := [];
      if c.valid && c.remoteCid != Linking.NULL_CID && c.state == Linking.Inactive {
        outs := [Linking.ConfigureReq(w, c.remoteCid, ok)];
        if ok {
          SetChannel(w, c.(state := Linking.ConfigPend));
        }
      }
    }

    /** The linking part of a tick; a new channel gets the next identifier of the counter. */
    method TickLink(canRequest: bool, ok: Injections, cids: ChannelIds.CidGenerator) returns (outs: seq<Linking.Out>)
      requires !Linking.Operational(LinkView()) && cids.Valid()
      requires Linking.Opens(LinkView()) ==> ok.connect
      modifies `baseband, `acl, `cntl, `intr, cids
      ensures (LinkView(), outs) == Linking.OnTick(old(LinkView()), TickEnv(canRequest, ok, old(cids.count)))
      ensures cids.Valid() && cids.count == old(cids.count) + if Linking.Opens(old(LinkView())) then 1 else 0
    {
      hide Linking.ConfigureChannel, ChannelIds.CidOf;
      ghost var env := TickEnv(canRequest, ok, cids.count);
      outs := [];
      ghost var l := LinkView();
      if baseband == Linking.RequestConnection {
        if canRequest {
          outs := [Linking.ConnectionRequest(ok.request)];
          if ok.request {
            baseband := Linking.BasebandInactive;
          }
        }
      } else if baseband == Linking.BasebandComplete {
        var complete := Linking.IsComplete(cntl);
        if !cntl.valid {
          var cid := cids.Next();
          cntl := Linking.Setup(L2cap.PSM_HID_CNTL, cid);
          outs := [Linking.ConnectReq(Linking.Cntl, cid)];
        } else if complete && !intr.valid {
          var cid := cids.Next();
          intr := Linking.Setup(L2cap.PSM_HID_INTR, cid);
          outs := [Linking.ConnectReq(Linking.Intr, cid)];
        } else if complete && Linking.IsComplete(intr) {
          acl := Linking.AclInactive;
          return [Linking.Resume];
        }
        ghost var before := LinkView();
        var o1 := CheckSendConfig(Linking.Cntl, ok.cntl);
        var o2 := CheckSendConfig(Linking.Intr, ok.intr);
        assert (LinkView(), o1 + o2) == Linking.ConfigureBoth(before, env);
        assert [] + (o1 + o2) == o1 + o2;
        outs := outs + (o1 + o2);
        assert (LinkView(), outs) == Linking.LinkingTick(l, env);
      }
    }

    /** handle_l2cap_signal_channel */
    method HandleSignal(s: L2cap.Signal) returns (effects: seq<Effect>)
      requires Linking.SignalSized(s) && Linking.Expected(LinkView(), Linking.Decode(s))
      modifies `active, `cntl, `intr
      ensures (View(), effects) == OnSignal(old(View()), s)
    {
      hide LinkView, PadView, Linking.Expected, Linking.SignalSized, Linking.OnRequest;
      var r := Linking.Decode(s);
      if Linking.Refused(r) {
        effects := DisconnectNow();
      } else {
        var outs := HandleRequest(r);
        effects := LinkEffects(outs);
      }
    }

    method HandleRequest(r: Linking.Request) returns (outs: seq<Linking.Out>)
      requires !Linking.Refused(r) && Linking.Expected(LinkView(), r)
      modifies `cntl, `intr
      ensures (LinkView(), outs) == Linking.OnRequest(old(LinkView()), r)
    {
      hide L2cap.ParsedMtu, L2cap.OptionsWellFormed, LinkView;
      outs := [];
      match r {
        case ConnectRsp(dcid, scid, _, _) =>
          var w := Linking.ChannelOf(LinkOf(), scid).value;
          SetChannel(w, GetChannel(w).(remoteCid := dcid));
        case ConfigReq(ident, dcid, _, options) =>
          var w := Linking.ChannelOf(LinkOf(), dcid).value;
          var mtu := L2cap.ParseOptions(options);
          outs := [Linking.ConfigureRsp(GetChannel(w).remoteCid, ident, options)];
          SetChannel(w, GetChannel(w).(remoteMtu := mtu));
        case ConfigRsp(scid, _) =>
          var w := Linking.ChannelOf(LinkOf(), scid).value;
          SetChannel(w, GetChannel(w).(state := Linking.Complete));
        case DisconnectReq(ident, dcid, scid) =>
          var w := Linking.ChannelOf(LinkOf(), dcid).value;
          SetChannel(w, GetChannel(w).(valid := false));
          outs := [Linking.DisconnectRsp(ident, dcid, scid)];
        case OtherRequest =>
      }
    }

    function LinkOf(): (l: Linking.Link)
      reads `conHandle, `baseband, `acl, `cntl, `intr
      ensures l == LinkView()
    {
      Linking.Link(conHandle, baseband, acl, cntl, intr)
    }

    /** fake_wiimote_disconnect, but for the release of the device, which the caller carries out. */
    method DisconnectNow() returns (effects: seq<Effect>)
      modifies `active
      ensures (View(), effects) == Disconnect(old(View()))
    {
      active := false;
      effects := [];
      if inputDevice.Some? {
        effects := [ReleaseDevice(inputDevice.value)];
      }
      ghost var released := effects;
      if baseband == Linking.BasebandComplete {
        effects := effects + [DisconnectionComplete(conHandle)];
      }
      assert released + [] == released;
    }

    /** The loop of handle_l2cap_signal_channel_request. */
    method HandleSignals(data: seq<byte>) returns (effects: seq<Effect>)
      requires L2cap.SignalsWellFormed(data) && SignalsExpected(View(), L2cap.Signals(data))
      modifies `active, `cntl, `intr
      ensures (View(), effects) == OnSignals(old(View()), L2cap.Signals(data))
    {
      hide OnSignal, L2cap.CommandLength;
      effects := [];
      var rest := data;
      while |rest| >= L2cap.COMMAND_HEADER
        invariant L2cap.SignalsWellFormed(rest) && SignalsExpected(View(), L2cap.Signals(rest))
        invariant var (w, es) := OnSignals(old(View()), L2cap.Signals(data));
                  var (w', es') := OnSignals(View(), L2cap.Signals(rest));
                  w == w' && es == effects + es'
        decreases |rest|
      {
        var end := L2cap.COMMAND_HEADER + L2cap.CommandLength(rest);
        var s := L2cap.Signal(rest[0], rest[1], rest[L2cap.COMMAND_HEADER..end]);
        assert L2cap.Signals(rest)[0] == s && L2cap.Signals(rest)[1..] == L2cap.Signals(rest[end..]);
        ghost var before := View();
        ghost var later := OnSignals(OnSignal(before, s).0, L2cap.Signals(rest[end..])).1;
        var es := HandleSignal(s);
        assert effects + (es + later) == (effects + es) + later;
        effects := effects + es;
        rest := rest[end..];
      }
      assert L2cap.Signals(rest) == [];
      assert OnSignals(View(), L2cap.Signals(rest)) == (View(), []);
      assert effects + [] == effects;
    }

    // -- entry points

    /** fake_wiimote_handle_acl_data_out_request_from_host */
    method HandleAclOut(p: seq<byte>) returns (effects: seq<Effect>)
      requires tables.Valid() && PacketExpected(tables, View(), p)
      modifies this
      ensures (View(), effects) == OnPacket(tables, old(View()), p)
    {
      hide OnSignals, SignalsExpected, Pad.Hid, DecodeHid, HidWellFormed, WordAt, Val, L2cap.SignalsWellFormed,
           LinkView, MemView, Pad.HidReadable;
      ghost var w := View();
      completed := (completed + 1) % COUNTER;
      var payload := PacketPayload(p);
      if PacketChannel(p) == L2cap.SIGNAL_CID {
        SignalsIgnoreCounter(w, View(), L2cap.Signals(payload));
        effects := HandleSignals(payload);
      } else {
        var which := Linking.ChannelOf(LinkOf(), PacketChannel(p));
        effects := [];
        if which.Some? && GetChannel(which.value).psm == L2cap.PSM_HID_INTR {
          if |payload| >= 2 && payload[0] == HID_OUTPUT {
            assert IsHidOutput(w, p);
            var outs := HandleHid(DecodeHid(payload[1..]));
            effects := PadEffects(outs);
          }
        }
      }
    }

    /** fake_wiimote_tick */
    method Tick(canRequest: bool, ok: Injections, cids: ChannelIds.CidGenerator, input: Pad.Input)
      returns (effects: seq<Effect>)
      requires tables.Valid() && TickExpected(tables, View(), input) && cids.Valid()
      requires Linking.Opens(LinkView()) ==> ok.connect
      modifies this, cids
      ensures (View(), effects) == OnTick(tables, old(View()), TickEnv(canRequest, ok, old(cids.count)), input)
      ensures cids.Valid() && cids.count == old(cids.count) + if Linking.Opens(old(LinkView())) then 1 else 0
    {
      hide Pad.Tick, Linking.OnTick, Pad.TickReadable, MemView, PadView, TickEnv;
      MemOfPad();
      if baseband == Linking.BasebandComplete && acl == Linking.AclInactive {
        var outs := TickPad(input);
        effects := PadEffects(outs);
      } else {
        var outs := TickLink(canRequest, ok, cids);
        effects := LinkEffects(outs);
      }
    }

    /** fake_wiimote_init_state */
    method Init(slot: nat, calibration: seq<byte>)
      modifies this
      ensures View() == InitState(old(View()), slot, calibration)
    {
      hide Pad.InitPad, Linking.InitLink, PadView, LinkView;
      completed, inputDevice := 0, Some(slot);
      InitConnection();
      InitRegisters(calibration);
    }

    method InitConnection()
      modifies `baseband, `acl, `cntl, `intr
      ensures LinkView() == Linking.InitLink(old(LinkView()))
    {
      baseband, acl := Linking.RequestConnection, Linking.AclInactive;
      cntl, intr := cntl.(valid := false), intr.(valid := false);
    }

    method InitRegisters(calibration: seq<byte>)
      modifies `eeprom, `ir, `ext, `key, `keyDirty, `req, `mode, `continuous, `leds, `irEnabled,
               `buttons, `inputDirty, `acc, `curExt, `newExt
      ensures PadView() == Pad.InitPad(old(PadView()), calibration)
    {
      hide MemView, Pad.FreshExtension;
      ResetExtensionState();
      ClearRegisters(calibration);
      ClearInput();
    }

    method ClearRegisters(calibration: seq<byte>)
      modifies `eeprom, `ir, `req
      ensures MemView() == old(MemView()).(eeprom := calibration, ir := Fill(REGISTERS_SIZE, 0),
                                           req := old(MemView()).req.(size := 0))
    {
      hide Fill;
      ir := Fill(REGISTERS_SIZE, 0);
      eeprom := calibration;
      req := req.(size := 0);
    }

    method ClearInput()
      modifies `mode, `continuous, `leds, `irEnabled, `buttons, `inputDirty, `acc, `curExt, `newExt
      ensures PadView() == Pad.Pad(MemView(), Reports.BTN, false, 0, false, 0, false,
                                   Reports.Acc(Pad.ACCEL_ZERO_G, Pad.ACCEL_ZERO_G, Pad.ACCEL_ONE_G),
                                   Pad.NoExtension, Pad.NoExtension)
    {
      hide MemView;
      leds, irEnabled := 0, false;
      buttons, inputDirty := 0, false;
      acc := Reports.Acc(Pad.ACCEL_ZERO_G, Pad.ACCEL_ZERO_G, Pad.ACCEL_ONE_G);
      curExt, newExt := Pad.NoExtension, Pad.NoExtension;
      mode, continuous := Reports.BTN, false;
    }

    method AcceptConnection(handle: word)
      modifies `conHandle, `baseband, `acl
      ensures View() == OnAccept(old(View()), handle)
    {
      baseband, conHandle, acl := Linking.BasebandComplete, handle, Linking.AclLinking;
    }
  }
}
