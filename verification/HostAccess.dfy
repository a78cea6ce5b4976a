/**
 * What the host's output reports do to a fake Wiimote (source/fake_wiimote.c), in the protocol's own
 * numbers: where a write lands and what a later read shows of it, what a status report tells, when
 * a data report is due, and what an attached extension identifies itself as.
 */
module HostAccess {
  import opened Bytes
  import opened Crypto
  import opened Registers
  import opened Pad
  import ButtonMap
  import Reports

  // ---------------------------------------------------------------- writes

  /** after is before with data written over it from offset at on, byte by byte. */
  predicate Written(before: seq<byte>, after: seq<byte>, at: nat, data: seq<byte>) {
    && |after| == |before|
    && forall k :: 0 <= k < |after| ==> after[k] == if at <= k < at + |data| then data[k - at] else before[k]
  }

  /** What a write request of the host does to the memory, and the error it is acknowledged with. */
  predicate WriteOutcome(w: WriteRequest, m: Memory, m': Memory, error: nat)
    requires 1 <= w.size <= 16 && |w.data| == 16
  {
    if w.space == 0 && w.address + w.size <= 0x1700 then
      Written(m.eeprom, m'.eeprom, w.address, w.data[..w.size]) && m' == m.(eeprom := m'.eeprom) && error == 0
    else if (w.space == 1 || w.space == 2) && w.slave == 0x52 && w.address + w.size <= 0x100 then
      && Written(m.ext, m'.ext, w.address, w.data[..w.size])
      && m' == m.(ext := m'.ext, keyDirty := m'.keyDirty) && error == 0
    else if (w.space == 1 || w.space == 2) && w.slave == 0x58 && w.address + w.size <= 0x100 then
      Written(m.ir, m'.ir, w.address, w.data[..w.size]) && m' == m.(ir := m'.ir) && error == 0
    else
      && m' == m
      && error == (if w.space == 0 || ((w.space == 1 || w.space == 2) && w.slave == 0x50) then 8
                   else if w.space != 1 && w.space != 2 then 6
                   else if w.slave == 0x52 || w.slave == 0x58 then 7
                   else 0)
  }

  /** A write of 1 to 16 bytes that fits its bank changes exactly the addressed bytes of exactly that
      bank; a refused one, or one to an unknown slave, changes nothing; either is acknowledged once. */
  lemma WriteLands(t: Tables, p: Pad, w: WriteRequest)
    requires t.Valid() && Shaped(p.mem) && |w.data| == 16
    ensures var (p', outs) := Hid(t, p, WriteData(w));
            && p' == p.(mem := p'.mem)
            && (1 <= w.size <= 16 ==>
                  exists error: nat :: WriteOutcome(w, p.mem, p'.mem, error) && outs == [AckReport(p.buttons, 0x16, error)])
            && (w.size == 0 || w.size > 16 ==> p' == p && outs == [])
  {
    hide KeyOf;
    if 1 <= w.size <= 16 {
      var (m', error) := ProcessWrite(p.mem, w);
      OutcomeOfWrite(p.mem, w);
      assert WriteOutcome(w, p.mem, m', error.value);
    }
  }

  lemma OutcomeOfWrite(m: Memory, w: WriteRequest)
    requires Shaped(m) && |w.data| == 16 && 1 <= w.size <= 16
    ensures var (m', error) := ProcessWrite(m, w); error.Some? && WriteOutcome(w, m, m', error.value)
  {
  }

  /** The bank that a request addresses, in the protocol's numbers. */
  function Bank(m: Memory, space: nat, slave: nat): seq<byte> {
    if space == 0 then m.eeprom
    else if (space == 1 || space == 2) && slave == 0x52 then m.ext
    else if (space == 1 || space == 2) && slave == 0x58 then m.ir
    else []
  }

  /** The plain bytes behind what the host received: decrypted, as one block from the first address,
      if the extension's registers say that they are encrypted. */
  ghost function HostPlain(t: Tables, m: Memory, r: ReadRequest, received: seq<byte>): seq<byte>
    requires t.Valid() && Shaped(m) && (AtExt(r) ==> Decryptable(t, m.ext))
  {
    if AtExt(r) && m.ext[0xF0] == 0xAA then
      KeyAt40(m.ext);
      Decrypt(KeyOf(t, m.ext[0x40..0x50]), r.address, received)
    else received
  }

  lemma KeyAt40(ext: seq<byte>)
    requires |ext| == 0x100
    ensures KeyBytes(ext) == ext[0x40..0x50] && (Encrypted(ext) <==> ext[0xF0] == 0xAA)
  {
  }

  /** An in-range read shows the host the bytes of the addressed bank. */
  lemma ReadShowsBank(t: Tables, p: Pad, r: ReadRequest, es: seq<Event>)
    requires Inv(t, p) && p.mem.req.size == 0 && r.size > 0 && ValidCommand(ReadData(r))
    requires Bank(p.mem, r.space, r.slave) != [] && r.address + r.size <= |Bank(p.mem, r.space, r.slave)|
    requires AtExt(r) ==> Decryptable(t, p.mem.ext)
    requires var start := Hid(t, p, ReadData(r)).0;
             && Legal(t, start, es) && InProgress(t, start, es) && After(t, start, es).mem.req.size == 0
             && forall i :: 0 <= i < |es| ==> !IsWrite(es[i])
    ensures Legal(t, p, [Told(ReadData(r))] + es)
    ensures var replies := ReadReplies(Outs(t, p, [Told(ReadData(r))] + es));
            && |replies| == (r.size + 15) / 16
            && HostPlain(t, p.mem, r, DataOf(replies)) ==
               Bank(p.mem, r.space, r.slave)[r.address..r.address + r.size]
  {
    hide KeyOf, Hid, Legal, InProgress, After, Outs, ReadReplies, DataOf, BytesOf, Received;
    ReadIsAtomic(t, p, r, es);
    AtomicBlock(t, p.mem, r);
    KeyAt40(p.mem.ext);
  }

  /** How a read begins on an idle Wiimote: one reply, at once, with the requested address and the number
      of its bytes, or with the error and no data. */
  lemma ReadIsAnswered(t: Tables, p: Pad, r: ReadRequest)
    requires t.Valid() && Shaped(p.mem) && p.mem.req.size == 0 && ValidCommand(ReadData(r)) && r.size > 0
    requires HidReadable(t, p, ReadData(r))
    ensures var outs := Hid(t, p, ReadData(r)).1;
            var n := if r.size < 16 then r.size else 16;
            var error := if r.space == 0 then (if r.address + r.size > 0x1700 then 8 else 0)
                         else if r.space != 1 && r.space != 2 then 6
                         else if r.slave == 0x50 then 8
                         else if (r.slave == 0x52 || r.slave == 0x58) && r.address + n > 0x100 then 7
                         else 0;
            && |outs| == 1 && outs[0].ReadReply?
            && var reply := outs[0].reply;
               && reply.buttons == p.buttons && reply.address == r.address && reply.error == error
               && reply.sizeMinusOne == (if error == 0 then n - 1 else 15)
               && |reply.data| == 16 && (error != 0 ==> forall k :: 0 <= k < 16 ==> reply.data[k] == 0)
  {
    hide KeyOf, ReadExt;
  }

  /** Write, then read: over any run that finishes a read around the written range, without another
      write, the host gets back the bytes it wrote, and around them what was there before. */
  lemma WriteThenRead(t: Tables, p: Pad, w: WriteRequest, r: ReadRequest, es: seq<Event>)
    requires Inv(t, p) && p.mem.req.size == 0 && |w.data| == 16 && 1 <= w.size <= 16
    requires r.space == w.space && r.slave == w.slave && r.size > 0 && ValidCommand(ReadData(r))
    requires var bank := Bank(p.mem, w.space, w.slave);
             bank != [] && w.address + w.size <= |bank| && r.address + r.size <= |bank|
    requires var p1 := Hid(t, p, WriteData(w)).0;
             && (AtExt(r) ==> Decryptable(t, p1.mem.ext)) && p1.mem.req.size == 0
             && var start := Hid(t, p1, ReadData(r)).0;
                && Legal(t, start, es) && InProgress(t, start, es) && After(t, start, es).mem.req.size == 0
                && forall i :: 0 <= i < |es| ==> !IsWrite(es[i])
    ensures var p1 := Hid(t, p, WriteData(w)).0;
            && Legal(t, p1, [Told(ReadData(r))] + es)
            && var plain := HostPlain(t, p1.mem, r, DataOf(ReadReplies(Outs(t, p1, [Told(ReadData(r))] + es))));
               && |plain| == r.size
               && forall k :: 0 <= k < r.size ==>
                    plain[k] == if w.address <= r.address + k < w.address + w.size then w.data[r.address + k - w.address]
                                else Bank(p.mem, w.space, w.slave)[r.address + k]
  {
    hide KeyOf, Legal, InProgress, After, Outs, ReadReplies, DataOf, HostPlain, Hid, Decryptable;
    var p1 := Hid(t, p, WriteData(w)).0;
    HidKeepsInv(t, p, WriteData(w));
    WrittenBank(t, p, w);
    ReadShowsBank(t, p1, r, es);
  }

  lemma WrittenBank(t: Tables, p: Pad, w: WriteRequest)
    requires t.Valid() && Shaped(p.mem) && |w.data| == 16 && 1 <= w.size <= 16
    requires var bank := Bank(p.mem, w.space, w.slave); bank != [] && w.address + w.size <= |bank|
    ensures var m' := Hid(t, p, WriteData(w)).0.mem;
            Written(Bank(p.mem, w.space, w.slave), Bank(m', w.space, w.slave), w.address, w.data[..w.size])
  {
    hide Hid;
    WriteLands(t, p, w);
  }

  /** The host turns the cipher on and off by one byte. */
  lemma CipherSwitch(t: Tables, p: Pad, w: WriteRequest)
    requires t.Valid() && Shaped(p.mem) && |w.data| == 16
    requires (w.space == 1 || w.space == 2) && w.slave == 0x52 && w.address == 0xF0 && w.size == 1
    ensures Encrypted(Hid(t, p, WriteData(w)).0.mem.ext) <==> w.data[0] == 0xAA
  {
    hide Hid;
    WriteLands(t, p, w);
    assert Encrypted(Hid(t, p, WriteData(w)).0.mem.ext) <==> Hid(t, p, WriteData(w)).0.mem.ext[0xF0] == 0xAA;
  }

  // ---------------------------------------------------------------- the camera

  /** The camera's mode is the byte the host writes at 0x33, and its data are at 0x37: after a sample
      the host reads the dots there in the packing of that mode, and nothing else has changed. */
  lemma CameraShowsDots(t: Tables, p: Pad, w: WriteRequest, i: Input)
    requires t.Valid() && Shaped(p.mem) && |w.data| == 16 && i.Sample? && ValidInput(i)
    requires (w.space == 1 || w.space == 2) && w.slave == 0x58 && w.address == 0x33 && w.size == 1
    requires i.x0 < 0x400 && i.y0 < 0x400 && i.x1 < 0x400 && i.y1 < 0x400
    ensures var q := Hid(t, p, WriteData(w)).0;
            var (mode, ir) := (w.data[0], Sampled(q, i).mem.ir);
            && |ir| == 0x100 && ir[0x33] == mode
            && (mode == 1 ==> ButtonMap.BasicDots(ir[0x37..0x41]) == ((i.x0, i.y0), (i.x1, i.y1)))
            && (mode == 3 ==> ButtonMap.ExtendedDot(ir, 0x37) == (i.x0, i.y0) && ButtonMap.ExtendedDot(ir, 0x3A) == (i.x1, i.y1))
            && (mode == 5 ==> ButtonMap.ExtendedDot(ir, 0x37) == (i.x0, i.y0) && ButtonMap.ExtendedDot(ir, 0x40) == (i.x1, i.y1))
            && forall k :: 0 <= k < 0x100 && (k < 0x37 || k >= 0x5B) && k != 0x33 ==> ir[k] == p.mem.ir[k]
  {
    hide KeyOf, ButtonMap.BasicDots, ButtonMap.ExtendedDot, ButtonMap.CameraBytes, Hid;
    WriteLands(t, p, w);
    var q := Hid(t, p, WriteData(w)).0;
    var bytes := ButtonMap.CameraBytes(w.data[0], i.x0, i.y0, i.x1, i.y1);
    ButtonMap.CameraBytesDecode(i.x0, i.y0, i.x1, i.y1);
    ButtonMap.OtherDotsAbsent(w.data[0], i.x0, i.y0, i.x1, i.y1);
    var ir := Sampled(q, i).mem.ir;
    assert ir == Splice(q.mem.ir, 0x37, bytes);
    if w.data[0] == 1 {
      assert ir[0x37..0x41] == bytes;
    } else if w.data[0] == 3 || w.data[0] == 5 {
      SameDot(bytes, 0, ir, 0x37);
      SameDot(bytes, 3, ir, 0x3A);
      SameDot(bytes, 9, ir, 0x40);
    }
  }

  lemma SameDot(a: seq<byte>, i: nat, b: seq<byte>, j: nat)
    requires i + 3 <= |a| && j + 3 <= |b| && a[i] == b[j] && a[i + 1] == b[j + 1] && a[i + 2] == b[j + 2]
    ensures ButtonMap.ExtendedDot(a, i) == ButtonMap.ExtendedDot(b, j)
  {
  }

  // ---------------------------------------------------------------- status

  /** The LEDs, the IR flag and the report mode as the host last set them. */
  function LedsAfter(leds: byte, es: seq<Event>): byte {
    if es == [] then leds
    else
      var e := es[|es| - 1];
      if e.Told? && e.command.Led? then e.command.leds else LedsAfter(leds, es[..|es| - 1])
  }

  function IrAfter(ir: bool, es: seq<Event>): bool {
    if es == [] then ir
    else
      var e := es[|es| - 1];
      if e.Told? && e.command.IrEnable? then e.command.enable else IrAfter(ir, es[..|es| - 1])
  }

  lemma LedsFromFront(leds: byte, e: Event, es: seq<Event>)
    ensures LedsAfter(leds, [e] + es) == LedsAfter(if e.Told? && e.command.Led? then e.command.leds else leds, es)
  {
    var all := [e] + es;
    if es == [] {
      assert all[..0] == [];
    } else {
      assert all[..|es|] == [e] + es[..|es| - 1] && all[|es|] == es[|es| - 1];
      LedsFromFront(leds, e, es[..|es| - 1]);
    }
  }

  lemma IrFromFront(ir: bool, e: Event, es: seq<Event>)
    ensures IrAfter(ir, [e] + es) == IrAfter(if e.Told? && e.command.IrEnable? then e.command.enable else ir, es)
  {
    var all := [e] + es;
    if es == [] {
      assert all[..0] == [];
    } else {
      assert all[..|es|] == [e] + es[..|es| - 1] && all[|es|] == es[|es| - 1];
      IrFromFront(ir, e, es[..|es| - 1]);
    }
  }

  lemma StepKeepsStatus(t: Tables, p: Pad, e: Event)
    requires t.Valid() && Enabled(t, p, e)
    ensures var p' := Step(t, p, e).0;
            && p'.leds == (if e.Told? && e.command.Led? then e.command.leds else p.leds)
            && p'.irEnabled == (if e.Told? && e.command.IrEnable? then e.command.enable else p.irEnabled)
  {
    hide Tick, TickReadable, KeyOf, ProcessRead, ProcessWrite;
    if e.Ticked? {
      TickKeepsStatus(t, p, e.input);
    }
  }

  lemma TickKeepsStatus(t: Tables, p: Pad, i: Input)
    requires t.Valid() && Enabled(t, p, Ticked(i))
    ensures Tick(t, p, i).0.leds == p.leds && Tick(t, p, i).0.irEnabled == p.irEnabled
  {
    hide KeyOf, ProcessRead, FreshExtension, WithDots, Reports.Payload, ReadExt, Decryptable;
  }

  lemma {:induction false} StatusAfterRun(t: Tables, p: Pad, es: seq<Event>)
    requires t.Valid() && Legal(t, p, es)
    ensures var q := After(t, p, es); q.leds == LedsAfter(p.leds, es) && q.irEnabled == IrAfter(p.irEnabled, es)
    decreases |es|
  {
    hide Step, Enabled;
    if es != [] {
      StepKeepsStatus(t, p, es[0]);
      StatusAfterRun(t, Step(t, p, es[0]).0, es[1..]);
      assert es == [es[0]] + es[1..];
      LedsFromFront(p.leds, es[0], es[1..]);
      IrFromFront(p.irEnabled, es[0], es[1..]);
    }
  }

  /** After any run a status request is answered with the LEDs and the IR flag that the host set
      last, and with whether an extension is attached. */
  lemma StatusTellsLastSet(t: Tables, p: Pad, es: seq<Event>)
    requires t.Valid() && Legal(t, p, es) && Shaped(After(t, p, es).mem)
    ensures var q := After(t, p, es);
            Hid(t, q, RequestStatus) ==
            (q, [StatusReport(q.buttons, LedsAfter(p.leds, es), IrAfter(p.irEnabled, es), q.curExt != NoExtension)])
  {
    hide After, Legal;
    StatusAfterRun(t, p, es);
  }

  /** The other reports: what they set, and that they are acknowledged exactly on request. */
  lemma OtherReports(t: Tables, p: Pad, c: HidCommand)
    requires t.Valid() && Shaped(p.mem) && ValidCommand(c) && HidReadable(t, p, c)
    ensures var (p', outs) := Hid(t, p, c);
            match c
            case Led(leds, ack) => p' == p.(leds := leds) && outs == if ack then [AckReport(p.buttons, 0x11, 0)] else []
            case ReportMode(mode, continuous, ack) =>
              p' == p.(mode := mode, continuous := continuous)
              && outs == if ack then [AckReport(p.buttons, 0x12, 0)] else []
            case IrEnable(enable, ack) =>
              p' == p.(irEnabled := enable) && outs == if ack then [AckReport(p.buttons, 0x13, 0)] else []
            case FeatureAck(id, ack) => p' == p && outs == if ack then [AckReport(p.buttons, id, 0)] else []
            case Rumble => p' == p && outs == []
            case SpeakerData => p' == p && outs == []
            case RequestStatus => p' == p
            case ReadData(_) => p.mem.req.size > 0 ==> p' == p && outs == [AckReport(p.buttons, 0x17, 4)]
            case WriteData(_) => true
  {
    hide KeyOf, ProcessRead, ProcessWrite;
  }

  // ---------------------------------------------------------------- data reports

  /** The sample differs from what the Wiimote has. */
  predicate Changed(p: Pad, i: Input)
    requires Shaped(p.mem) && i.Sample? && ValidInput(i)
  {
    i.buttons != p.buttons || (i.extData.Some? && p.mem.ext[..6] != i.extData.value)
  }

  /** On a tick that samples, a data report is sent exactly if a report mode is set and the host wants
      them continuously, or something changed in this sample or in one that was not reported. */
  lemma ReportIsDue(t: Tables, p: Pad, i: Input)
    requires t.Valid() && Enabled(t, p, Ticked(i)) && i.Sample? && p.mem.req.size == 0 && p.newExt == p.curExt
    ensures var (p', outs) := Tick(t, p, i);
            var due := p.mode != 0x00 && (p.continuous || p.inputDirty || Changed(p, i));
            && (due ==> |outs| == 1 && outs[0].DataReport? && outs[0].mode == p.mode)
            && (!due ==> outs == [])
            && (p'.inputDirty <==> !due && (p.inputDirty || Changed(p, i)))
            && p'.buttons == i.buttons && p'.mode == p.mode && p'.continuous == p.continuous
  {
    hide KeyOf, Reports.Payload, Sampled, Changed, ReadExt, Decryptable;
    SampleSets(p, i);
  }

  lemma SampleSets(p: Pad, i: Input)
    requires Shaped(p.mem) && i.Sample? && ValidInput(i)
    ensures var q := Sampled(p, i);
            && q.buttons == i.buttons && q.mode == p.mode && q.continuous == p.continuous
            && (q.inputDirty <==> p.inputDirty || Changed(p, i))
  {
    hide ButtonMap.CameraBytes;
    ChangeShows(p.mem.ext, i);
  }

  lemma ChangeShows(ext: seq<byte>, i: Input)
    requires |ext| == REGISTERS_SIZE && i.Sample? && ValidInput(i)
    ensures i.extData.Some? ==> (Splice(ext, 0, i.extData.value) != ext <==> ext[..6] != i.extData.value)
  {
    if i.extData.Some? {
      if ext[..6] == i.extData.value {
        assert Splice(ext, 0, i.extData.value) == ext;
      } else {
        assert Splice(ext, 0, i.extData.value)[..6] == i.extData.value;
      }
    }
  }

  /** A Wiimote that was just assigned a gamepad: nothing set, nothing attached, no read in progress,
      and the first pressed button makes a report of two bytes. */
  lemma FirstReport(t: Tables, p: Pad, calibration: seq<byte>, i: Input)
    requires t.Valid() && Shaped(p.mem) && |calibration| == EEPROM_FREE_SIZE
    requires i.Sample? && i.extData.None? && ValidInput(i) && i.buttons != 0
    ensures var q := InitPad(p, calibration);
            && Hid(t, q, RequestStatus).1 == [StatusReport(0, 0, false, false)]
            && q.mem.eeprom == calibration && q.acc == Reports.Acc(0x200, 0x200, 0x268)
            && Enabled(t, q, Ticked(i)) && Tick(t, q, i).1 == [DataReport(0x30, [High(i.buttons), Low(i.buttons)])]
  {
    hide KeyOf, ButtonMap.CameraBytes, ReadExt, Decryptable, FreshExtension, High, Low;
    InitPadInv(t, p, calibration);
    var q := InitPad(p, calibration);
    SampleSets(q, i);
    ButtonsOnly(i.buttons, Sampled(q, i).acc, Sampled(q, i).mem.ir[CAMERA_DATA_AT..CAMERA_DATA_AT + 0]);
  }

  lemma ButtonsOnly(buttons: word, acc: Reports.Acc, none: seq<byte>)
    requires none == []
    ensures Reports.IrSize(0x30) == Reports.ExtSize(0x30) == 0
    ensures Reports.Payload(0x30, buttons, acc, none, []) == [High(buttons), Low(buttons)]
  {
  }

  // ---------------------------------------------------------------- extensions

  /** When an extension has been attached, the host reads its identifier in the clear. */
  lemma AttachedIdentifies(t: Tables, p: Pad, i: Input)
    requires Inv(t, p) && ChangeDue(p) && p.curExt == NoExtension && Enabled(t, p, Ticked(i))
    ensures var q := Tick(t, p, i).0;
            && Shaped(q.mem) && q.curExt == p.newExt && q.mem.ext[0xF0] != 0xAA
            && q.mem.ext[0xFA..] ==
               match p.newExt
               case Nunchuk => [0x00, 0x00, 0xA4, 0x20, 0x00, 0x00]
               case Classic => [0x00, 0x00, 0xA4, 0x20, 0x01, 0x01]
               case ClassicWiiuPro => [0x00, 0x00, 0xA4, 0x20, 0x01, 0x20]
               case Guitar => [0x00, 0x00, 0xA4, 0x20, 0x01, 0x03]
               case MotionPlus => [0x00, 0x00, 0xA6, 0x20, 0x00, 0x05]
               case NoExtension => [0, 0, 0, 0, 0, 0]
  {
    hide FreshExtension, KeyOf;
    PortChange(t, p, Ticked(i));
  }

  /** A gamepad that switches to another extension sends nothing in that tick; after two more ticks
      without a read in progress, whatever else happens, that extension is attached. */
  lemma SwitchIsCarriedOut(t: Tables, p: Pad, e: Extension, es: seq<Event>)
    requires t.Valid() && Shaped(p.mem) && p.mem.req.size == 0 && p.newExt == p.curExt
    ensures Enabled(t, p, Ticked(SwitchExtension(e)))
    ensures var (q, outs) := Tick(t, p, SwitchExtension(e));
            && outs == [] && q == p.(newExt := e)
            && (Legal(t, q, es) && FreeTicks(t, q, es) >= 2 && (forall i :: 0 <= i < |es| ==> !IsSwitch(es[i])) ==>
                  After(t, q, es).curExt == e)
  {
    var q := p.(newExt := e);
    if Legal(t, q, es) && FreeTicks(t, q, es) >= 2 && forall i :: 0 <= i < |es| ==> !IsSwitch(es[i]) {
      TargetReached(t, q, es);
      Arrived(After(t, q, es).curExt, e, p.curExt);
    }
  }

  lemma Arrived(a: Extension, b: Extension, c: Extension)
    ensures Distance(c, b) <= 2 && (Distance(a, b) == 0 ==> a == b)
  {
  }

  /** And its data are those of one that nobody touches. */
  lemma AttachedRests(e: Extension)
    ensures e == Nunchuk ==>
              ButtonMap.NunchukRead(FreshExtension(e)[..6]) == ButtonMap.NunchukState(0x80, 0x80, 0, 0, 0, false, false)
    ensures e == Classic ==>
              ButtonMap.ClassicRead(FreshExtension(e)[..6]) == ButtonMap.ClassicState(0x20, 0x20, 0x10, 0x10, 0, 0, 0)
  {
    hide ButtonMap.NunchukFormat, ButtonMap.ClassicFormat, ButtonMap.NunchukRead, ButtonMap.ClassicRead;
    assert FreshExtension(e)[..6] == RestingData(e);
    ButtonMap.NunchukDecodes(0, 0x80, 0x80, 0, 0, 0);
    ButtonMap.ClassicDecodes(0, 0x80, 0x80, 0x80, 0x80);
  }
}
