/**
 * What an operational fake Wiimote does (source/fake_wiimote.c): output reports from the host,
 * the tick that answers reads, swaps extensions and sends data reports, and the properties of
 * whole runs of the two.
 */
module Pad {
  import opened Bytes
  import opened Crypto
  import opened Registers
  import opened Reports
  import opened ButtonMap

  datatype Extension = NoExtension | Nunchuk | Classic | ClassicWiiuPro | Guitar | MotionPlus

  const ACCEL_ZERO_G: word := 0x200
  const ACCEL_ONE_G: word := 0x268

  datatype Pad = Pad(
    mem: Memory,
    mode: byte,
    continuous: bool,
    leds: byte,
    irEnabled: bool,
    buttons: word,
    inputDirty: bool,
    acc: Acc,
    curExt: Extension,
    newExt: Extension)

  /** Output reports, bit fields decoded. FeatureAck stands for the three enable reports that are
      at most acknowledged. */
  datatype HidCommand =
    | Rumble
    | SpeakerData
    | Led(leds: byte, ack: bool)
    | ReportMode(mode: byte, continuous: bool, ack: bool)
    | IrEnable(enable: bool, ack: bool)
    | FeatureAck(reportId: byte, ack: bool)
    | RequestStatus
    | WriteData(write: WriteRequest)
    | ReadData(read: ReadRequest)

  const REPORT_LED: byte := 0x11
  const REPORT_MODE: byte := 0x12
  const REPORT_IR_ENABLE: byte := 0x13
  const REPORT_WRITE_DATA: byte := 0x16
  const REPORT_READ_DATA: byte := 0x17

  datatype Out =
    | AckReport(buttons: word, reportId: byte, error: nat)
    | StatusReport(buttons: word, leds: byte, ir: bool, extension: bool)
    | ReadReply(reply: Reply)
    | DataReport(mode: byte, payload: seq<byte>)

  /** What a gamepad delivers on a tick, already mapped: a request to switch extension, or
      buttons, acceleration if it has any, the two IR dots and the extension's six bytes. */
  datatype Input =
    | SwitchExtension(target: Extension)
    | Sample(buttons: word, acc: Option<Acc>, x0: word, y0: word, x1: word, y1: word, extData: Option<seq<byte>>)

  predicate ValidInput(i: Input) {
    i.Sample? ==>
      && i.buttons & ACC_BITS == 0
      && (i.extData.Some? ==> |i.extData.value| == EXT_DATA_SIZE)
  }

  predicate ValidCommand(c: HidCommand) {
    && (c.WriteData? ==> |c.write.data| == CHUNK)
    && (c.ReadData? ==> c.read.address < 0x1_0000 && c.read.size < 0x1_0000)
  }

  ghost predicate Inv(t: Tables, p: Pad) {
    && t.Valid() && Shaped(p.mem) && KeyAgrees(t, p.mem)
    && p.buttons & ACC_BITS == 0 && p.acc.TenBit()
  }

  // ---------------------------------------------------------------- extension state

  function Identifier(e: Extension): (s: seq<byte>)
    ensures |s| == 6
  {
    match e
    case NoExtension => [0, 0, 0, 0, 0, 0]
    case Nunchuk => [0x00, 0x00, 0xa4, 0x20, 0x00, 0x00]
    case Classic => [0x00, 0x00, 0xa4, 0x20, 0x01, 0x01]
    case ClassicWiiuPro => [0x00, 0x00, 0xa4, 0x20, 0x01, 0x20]
    case Guitar => [0x00, 0x00, 0xa4, 0x20, 0x01, 0x03]
    case MotionPlus => [0x00, 0x00, 0xA6, 0x20, 0x00, 0x05]
  }

  function RestingData(e: Extension): (s: seq<byte>)
    ensures |s| == EXT_DATA_SIZE
  {
    match e
    case Nunchuk => NunchukFormat(0, 0x80, 0x80, 0, 0, 0)
    case Classic => ClassicFormat(0, 0x80, 0x80, 0x80, 0x80)
    case _ => Fill(EXT_DATA_SIZE, 0)
  }

  function FreshExtension(e: Extension): (s: seq<byte>)
    ensures |s| == REGISTERS_SIZE
    ensures s[IDENTIFIER_AT..] == Identifier(e)
    ensures !Encrypted(s)
  {
    RestingData(e) + Fill(IDENTIFIER_AT - EXT_DATA_SIZE, 0) + Identifier(e)
  }

  /** fake_wiimote_reset_extension_state: registers and key for the current extension. */
  function ResetExtension(p: Pad): Pad {
    p.(mem := p.mem.(ext := FreshExtension(p.curExt), key := ZERO_KEY, keyDirty := true))
  }

  /** fake_wiimote_init_state. The registers are reset before the extension is cleared. */
  function InitPad(p: Pad, calibration: seq<byte>): Pad {
    var q := ResetExtension(p);
    Pad(q.mem.(eeprom := calibration, ir := Fill(REGISTERS_SIZE, 0), req := q.mem.req.(size := 0)),
        BTN, false, 0, false, 0, false, Acc(ACCEL_ZERO_G, ACCEL_ZERO_G, ACCEL_ONE_G), NoExtension, NoExtension)
  }

  // ---------------------------------------------------------------- the tick

  function MaskAcc(a: Acc): (r: Acc)
    ensures r.TenBit()
  {
    Acc(a.x & 0x3FF, a.y & 0x3FF, a.z & 0x3FF)
  }

  /** fake_wiimote_report_ir_dots */
  function WithDots(mem: Memory, x0: word, y0: word, x1: word, y1: word): (r: Memory)
    requires Shaped(mem)
    ensures Shaped(r)
  {
    mem.(ir := Splice(mem.ir, CAMERA_DATA_AT, CameraBytes(mem.ir[CAMERA_MODE_AT], x0, y0, x1, y1)))
  }

  /** The input callbacks: acceleration, IR dots, then buttons and extension bytes, which make
      the input dirty only if they differ from what is already there. */
  function Sampled(p: Pad, i: Input): (r: Pad)
    requires Shaped(p.mem) && i.Sample? && ValidInput(i)
    ensures Shaped(r.mem)
  {
    var mem := WithDots(p.mem, i.x0, i.y0, i.x1, i.y1);
    var acc := if i.acc.Some? then MaskAcc(i.acc.value) else p.acc;
    var ext := if i.extData.Some? then Splice(mem.ext, 0, i.extData.value) else mem.ext;
    p.(mem := mem.(ext := ext), acc := acc, buttons := i.buttons,
       inputDirty := p.inputDirty || i.buttons != p.buttons || ext != mem.ext)
  }

  predicate Reporting(p: Pad) {
    p.mode != REPORT_DISABLED && (p.continuous || p.inputDirty)
  }

  /** fake_wiimote_send_data_report */
  ghost function SendReport(t: Tables, p: Pad): (r: (Pad, seq<Out>))
    requires t.Valid() && Shaped(p.mem)
    requires Reporting(p) && ExtSize(p.mode) > 0 ==> Decryptable(t, p.mem.ext)
    ensures Shaped(r.0.mem)
  {
    if !Reporting(p) then (p, [])
    else
      var ir := p.mem.ir[CAMERA_DATA_AT..CAMERA_DATA_AT + IrSize(p.mode)];
      if ExtSize(p.mode) > 0 then
        var (mem, ext) := ReadExt(t, p.mem, 0, ExtSize(p.mode));
        (p.(mem := mem, inputDirty := false), [DataReport(p.mode, Payload(p.mode, p.buttons, p.acc, ir, ext))])
      else
        (p.(inputDirty := false), [DataReport(p.mode, Payload(p.mode, p.buttons, p.acc, ir, []))])
  }

  function Status(p: Pad): Out {
    StatusReport(p.buttons, p.leds, p.irEnabled, p.curExt != NoExtension)
  }

  /** fake_wiimote_process_extension_change, when the extensions differ: attach, or detach first. */
  function ChangeExtension(p: Pad): Pad {
    ResetExtension(p.(mode := REPORT_DISABLED,
                      curExt := if p.curExt == NoExtension then p.newExt else NoExtension))
  }

  /** A pending read comes first, then an extension change, then the input report. */
  ghost function Tick(t: Tables, p: Pad, i: Input): (r: (Pad, seq<Out>))
    requires t.Valid() && Shaped(p.mem) && ValidInput(i) && TickReadable(t, p, i)
    ensures Shaped(r.0.mem)
  {
    if p.mem.req.size > 0 then
      var (mem, reply) := ProcessRead(t, p.mem, p.buttons);
      (p.(mem := mem), [ReadReply(reply.value)])
    else if p.newExt != p.curExt then
      (ChangeExtension(p), [Status(ChangeExtension(p))])
    else
      match i
      case SwitchExtension(e) => (p.(newExt := e), [])
      case Sample(_, _, _, _, _, _, _) => SendReport(t, Sampled(p, i))
  }

  /** Whenever the tick reads encrypted extension data, the key data was made for some index. */
  predicate TickReadable(t: Tables, p: Pad, i: Input)
    requires Shaped(p.mem) && ValidInput(i)
  {
    if p.mem.req.size > 0 then ChunkReadsExt(p.mem.req) ==> Decryptable(t, p.mem.ext)
    else p.newExt == p.curExt && i.Sample? ==>
           var q := Sampled(p, i);
           Reporting(q) && ExtSize(q.mode) > 0 ==> Decryptable(t, q.mem.ext)
  }

  // ---------------------------------------------------------------- output reports

  function AckIf(p: Pad, ack: bool, id: byte): seq<Out> {
    if ack then [AckReport(p.buttons, id, ERROR_SUCCESS)] else []
  }

  /** A read is started unless one is in progress. */
  function StartRead(p: Pad, r: ReadRequest): Pad {
    p.(mem := p.mem.(req := r))
  }

  /** handle_hid_intr_data_output */
  ghost function Hid(t: Tables, p: Pad, c: HidCommand): (r: (Pad, seq<Out>))
    requires t.Valid() && Shaped(p.mem) && ValidCommand(c) && HidReadable(t, p, c)
    ensures Shaped(r.0.mem)
  {
    match c
    case Rumble => (p, [])
    case SpeakerData => (p, [])
    case Led(leds, ack) => (p.(leds := leds), AckIf(p, ack, REPORT_LED))
    case ReportMode(mode, continuous, ack) =>
      (p.(mode := mode, continuous := continuous), AckIf(p, ack, REPORT_MODE))
    case IrEnable(enable, ack) => (p.(irEnabled := enable), AckIf(p, ack, REPORT_IR_ENABLE))
    case FeatureAck(id, ack) => (p, AckIf(p, ack, id))
    case RequestStatus => (p, [Status(p)])
    case WriteData(w) =>
      var (mem, error) := ProcessWrite(p.mem, w);
      (p.(mem := mem), if error.Some? then [AckReport(p.buttons, REPORT_WRITE_DATA, error.value)] else [])
    case ReadData(r) =>
      if p.mem.req.size > 0 then (p, [AckReport(p.buttons, REPORT_READ_DATA, ERROR_BUSY)])
      else
        var (mem, reply) := ProcessRead(t, StartRead(p, r).mem, p.buttons);
        (p.(mem := mem), if reply.Some? then [ReadReply(reply.value)] else [])
  }

  predicate HidReadable(t: Tables, p: Pad, c: HidCommand)
    requires Shaped(p.mem)
  {
    c.ReadData? && p.mem.req.size == 0 && ChunkReadsExt(c.read) ==> Decryptable(t, p.mem.ext)
  }

  // ---------------------------------------------------------------- runs

  datatype Event = Ticked(input: Input) | Told(command: HidCommand)

  predicate Enabled(t: Tables, p: Pad, e: Event) {
    Shaped(p.mem) &&
    match e
    case Ticked(i) => ValidInput(i) && TickReadable(t, p, i)
    case Told(c) => ValidCommand(c) && HidReadable(t, p, c)
  }

  ghost function Step(t: Tables, p: Pad, e: Event): (r: (Pad, seq<Out>))
    requires t.Valid() && Enabled(t, p, e)
  {
    match e
    case Ticked(i) => Tick(t, p, i)
    case Told(c) => Hid(t, p, c)
  }

  ghost predicate Legal(t: Tables, p: Pad, es: seq<Event>)
    requires t.Valid()
    decreases |es|
  {
    es == [] || (Enabled(t, p, es[0]) && Legal(t, Step(t, p, es[0]).0, es[1..]))
  }

  ghost function After(t: Tables, p: Pad, es: seq<Event>): Pad
    requires t.Valid() && Legal(t, p, es)
    decreases |es|
  {
    if es == [] then p else After(t, Step(t, p, es[0]).0, es[1..])
  }

  ghost function Outs(t: Tables, p: Pad, es: seq<Event>): seq<Out>
    requires t.Valid() && Legal(t, p, es)
    decreases |es|
  {
    if es == [] then [] else Step(t, p, es[0]).1 + Outs(t, Step(t, p, es[0]).0, es[1..])
  }

  // ---------------------------------------------------------------- the invariant, and the key cache

  lemma SampledKeepsInv(t: Tables, p: Pad, i: Input)
    requires Inv(t, p) && i.Sample? && ValidInput(i)
    ensures Inv(t, Sampled(p, i))
  {
    hide KeyOf, CameraBytes;
    assert KeyBytes(Sampled(p, i).mem.ext) == KeyBytes(p.mem.ext);
  }

  lemma SendReportKeepsInv(t: Tables, p: Pad)
    requires Inv(t, p) && (Reporting(p) && ExtSize(p.mode) > 0 ==> Decryptable(t, p.mem.ext))
    ensures Inv(t, SendReport(t, p).0)
  {
    hide KeyOf, Payload;
    if Reporting(p) && ExtSize(p.mode) > 0 {
      ReadExtKeepsKey(t, p.mem, 0, ExtSize(p.mode));
    }
  }

  lemma TickKeepsInv(t: Tables, p: Pad, i: Input)
    requires Inv(t, p) && Enabled(t, p, Ticked(i))
    ensures Inv(t, Tick(t, p, i).0)
  {
    hide KeyOf, SendReport, ProcessRead, Sampled, FreshExtension;
    if p.mem.req.size > 0 {
      ProcessReadKeepsKey(t, p.mem, p.buttons);
    } else if p.newExt == p.curExt && i.Sample? {
      SampledKeepsInv(t, p, i);
      SendReportKeepsInv(t, Sampled(p, i));
    }
  }

  lemma HidKeepsInv(t: Tables, p: Pad, c: HidCommand)
    requires Inv(t, p) && Enabled(t, p, Told(c))
    ensures Inv(t, Hid(t, p, c).0)
  {
    hide KeyOf, ProcessRead, ProcessWrite;
    match c
    case WriteData(w) => ProcessWriteKeepsKey(t, p.mem, w);
    case ReadData(r) =>
      if p.mem.req.size == 0 {
        ProcessReadKeepsKey(t, StartRead(p, r).mem, p.buttons);
      }
    case _ =>
  }

  /** Every step keeps the cached key in agreement with the key bytes, the buttons clear of the
      acceleration bits, and the acceleration in ten bits. */
  lemma StepKeepsInv(t: Tables, p: Pad, e: Event)
    requires Inv(t, p) && Enabled(t, p, e)
    ensures Inv(t, Step(t, p, e).0)
  {
    match e
    case Ticked(i) => TickKeepsInv(t, p, i);
    case Told(c) => HidKeepsInv(t, p, c);
  }

  lemma {:induction false} RunKeepsInv(t: Tables, p: Pad, es: seq<Event>)
    requires Inv(t, p) && Legal(t, p, es)
    ensures Inv(t, After(t, p, es))
    decreases |es|
  {
    if es != [] {
      StepKeepsInv(t, p, es[0]);
      RunKeepsInv(t, Step(t, p, es[0]).0, es[1..]);
    }
  }

  /** Activation establishes the invariant, whatever was there before. */
  lemma InitPadInv(t: Tables, p: Pad, calibration: seq<byte>)
    requires t.Valid() && Shaped(p.mem) && |calibration| == EEPROM_FREE_SIZE
    ensures Inv(t, InitPad(p, calibration))
  {
  }

  /** The identifier after activation is the one of the extension that was attached before, so it
      matches the now empty port exactly if that was empty too. */
  lemma IdentifierAfterInit(p: Pad, calibration: seq<byte>)
    ensures var q := InitPad(p, calibration);
            && q.curExt == NoExtension
            && q.mem.ext[IDENTIFIER_AT..] == Identifier(p.curExt)
            && (q.mem.ext[IDENTIFIER_AT..] == Identifier(q.curExt) <==> p.curExt == NoExtension)
  {
    match p.curExt {
      case NoExtension =>
      case _ => assert Identifier(p.curExt)[2] != Identifier(NoExtension)[2];
    }
  }

  // ---------------------------------------------------------------- memory reads over runs

  predicate IsWrite(e: Event) { e.Told? && e.command.WriteData? }

  function Ticks(es: seq<Event>): nat {
    if es == [] then 0 else (if es[0].Ticked? then 1 else 0) + Ticks(es[1..])
  }

  function ReadReplies(outs: seq<Out>): seq<Reply> {
    if outs == [] then []
    else (if outs[0].ReadReply? then [outs[0].reply] else []) + ReadReplies(outs[1..])
  }

  lemma {:induction false} ReadRepliesAppend(a: seq<Out>, b: seq<Out>)
    ensures ReadReplies(a + b) == ReadReplies(a) + ReadReplies(b)
  {
    if a == [] {
      assert a + b == b;
    } else {
      assert (a + b)[0] == a[0] && (a + b)[1..] == a[1..] + b;
      ReadRepliesAppend(a[1..], b);
      var first := if a[0].ReadReply? then [a[0].reply] else [];
      assert first + ReadReplies(a[1..]) + ReadReplies(b) == first + (ReadReplies(a[1..]) + ReadReplies(b));
    }
  }

  /** The read is unfinished before every event of the run. */
  ghost predicate InProgress(t: Tables, p: Pad, es: seq<Event>)
    requires t.Valid() && Legal(t, p, es)
    decreases |es|
  {
    es == [] || (p.mem.req.size > 0 && InProgress(t, Step(t, p, es[0]).0, es[1..]))
  }

  /** Replies k to k+n-1, computed from memory m. */
  ghost function ExpectedReplies(t: Tables, m: Memory, r: ReadRequest, buttons: word, k: nat, n: nat): (s: seq<Reply>)
    requires t.Valid() && Shaped(m) && k + n <= TotalReplies(r) && (AtExt(r) ==> Decryptable(t, m.ext))
    ensures |s| == n
  {
    seq(n, j requires 0 <= j < n => ExpectedReply(t, m, r, buttons, k + j))
  }

  /** While a read is in progress a tick does nothing but answer it. */
  lemma ReadingTick(t: Tables, m0: Memory, r: ReadRequest, p: Pad, k: nat, i: Input)
    requires Inv(t, p) && Reading(t, m0, r, p.mem, k) && r.size > 0 && p.mem.req.size > 0
    requires Enabled(t, p, Ticked(i))
    ensures k < TotalReplies(r)
    ensures var (p', outs) := Tick(t, p, i);
            && Reading(t, m0, r, p'.mem, k + 1) && p'.buttons == p.buttons
            && outs == [ReadReply(ExpectedReply(t, m0, r, p.buttons, k))]
  {
    hide ProcessRead, KeyOf;
    Unfinished(r, k);
    NextReply(t, m0, r, p.mem, k, p.buttons);
  }

  lemma Unfinished(r: ReadRequest, k: nat)
    requires k <= TotalReplies(r) && Remaining(r, k).size > 0
    ensures k < TotalReplies(r)
  {
  }

  /** Other output reports leave the read alone; a second read is told to wait. */
  lemma ReadingHid(t: Tables, m0: Memory, r: ReadRequest, p: Pad, k: nat, c: HidCommand)
    requires Inv(t, p) && Reading(t, m0, r, p.mem, k) && p.mem.req.size > 0
    requires Enabled(t, p, Told(c)) && !c.WriteData?
    ensures var (p', outs) := Hid(t, p, c);
            p'.mem == p.mem && p'.buttons == p.buttons && ReadReplies(outs) == []
  {
    hide KeyOf, ProcessRead, ProcessWrite, KeyAgrees, Remaining, TotalReplies;
  }

  function TickCount(e: Event): nat { if e.Ticked? then 1 else 0 }

  lemma ReadingStep(t: Tables, m0: Memory, r: ReadRequest, p: Pad, k: nat, e: Event)
    requires Inv(t, p) && Reading(t, m0, r, p.mem, k) && r.size > 0 && p.mem.req.size > 0
    requires Enabled(t, p, e) && !IsWrite(e)
    ensures k + TickCount(e) <= TotalReplies(r)
    ensures var (p', outs) := Step(t, p, e);
            && Reading(t, m0, r, p'.mem, k + TickCount(e)) && p'.buttons == p.buttons
            && ReadReplies(outs) == ExpectedReplies(t, m0, r, p.buttons, k, TickCount(e))
  {
    hide KeyOf, Tick, Hid, ExpectedReply, Remaining, KeyAgrees;
    match e
    case Ticked(i) =>
      ReadingTick(t, m0, r, p, k, i);
      var out := ReadReply(ExpectedReply(t, m0, r, p.buttons, k));
      assert ReadReplies([out]) == [out.reply] + ReadReplies([out][1..]);
    case Told(c) =>
      ReadingHid(t, m0, r, p, k, c);
  }

  lemma ExpectedSplit(t: Tables, m: Memory, r: ReadRequest, buttons: word, k: nat, a: nat, b: nat)
    requires t.Valid() && Shaped(m) && k + a + b <= TotalReplies(r) && (AtExt(r) ==> Decryptable(t, m.ext))
    ensures ExpectedReplies(t, m, r, buttons, k, a) + ExpectedReplies(t, m, r, buttons, k + a, b) ==
            ExpectedReplies(t, m, r, buttons, k, a + b)
  {
    hide ExpectedReply, KeyOf;
  }

  lemma {:induction false} ReadingRun(t: Tables, m0: Memory, r: ReadRequest, p: Pad, k: nat, es: seq<Event>)
    requires Inv(t, p) && Reading(t, m0, r, p.mem, k) && r.size > 0
    requires Legal(t, p, es) && InProgress(t, p, es) && forall i :: 0 <= i < |es| ==> !IsWrite(es[i])
    ensures k + Ticks(es) <= TotalReplies(r)
    ensures Reading(t, m0, r, After(t, p, es).mem, k + Ticks(es))
    ensures ReadReplies(Outs(t, p, es)) == ExpectedReplies(t, m0, r, p.buttons, k, Ticks(es))
    decreases |es|
  {
    hide KeyOf, Step, ExpectedReply, ExpectedReplies, Remaining, KeyAgrees, TotalReplies;
    if es == [] {
      assert ExpectedReplies(t, m0, r, p.buttons, k, 0) == [];
    } else {
      var (p', outs) := Step(t, p, es[0]);
      var k' := k + TickCount(es[0]);
      StepKeepsInv(t, p, es[0]);
      ReadingStep(t, m0, r, p, k, es[0]);
      ReadingRun(t, m0, r, p', k', es[1..]);
      ReadRepliesAppend(outs, Outs(t, p', es[1..]));
      ExpectedSplit(t, m0, r, p.buttons, k, TickCount(es[0]), Ticks(es[1..]));
    }
  }

  /** A read command and any run after it without memory writes, while the read lasts: the replies
      are those of the memory as it was at request time, one at once and one per tick. */
  lemma MultiChunkRead(t: Tables, p: Pad, r: ReadRequest, es: seq<Event>)
    requires Inv(t, p) && p.mem.req.size == 0 && r.size > 0 && ValidCommand(ReadData(r))
    requires AtExt(r) ==> Decryptable(t, p.mem.ext)
    requires var start := Hid(t, p, ReadData(r)).0;
             && Legal(t, start, es) && InProgress(t, start, es)
             && forall i :: 0 <= i < |es| ==> !IsWrite(es[i])
    ensures Legal(t, p, [Told(ReadData(r))] + es)
    ensures 1 + Ticks(es) <= TotalReplies(r)
    ensures ReadReplies(Outs(t, p, [Told(ReadData(r))] + es)) ==
            ExpectedReplies(t, p.mem, r, p.buttons, 0, 1 + Ticks(es))
    ensures After(t, p, [Told(ReadData(r))] + es).mem.req == Remaining(r, 1 + Ticks(es))
    ensures After(t, p, [Told(ReadData(r))] + es).mem.req.size == 0 <==> 1 + Ticks(es) == TotalReplies(r)
  {
    hide KeyOf, Hid, ExpectedReply, ExpectedReplies, KeyAgrees, Remaining, TotalReplies, Reading, ReadReplies;
    ReadIsLegal(t, p, r, es);
    RepliesAfterStart(t, p, r, Hid(t, p, ReadData(r)).0, es);
    DoneIffAllSent(r, 1 + Ticks(es));
  }

  /** The bytes a reply carries. */
  function DataIn(r: Reply): seq<byte> {
    r.data[..Min(|r.data|, r.sizeMinusOne + 1)]
  }

  function DataOf(replies: seq<Reply>): seq<byte> {
    if replies == [] then [] else DataOf(replies[..|replies| - 1]) + DataIn(replies[|replies| - 1])
  }

  lemma {:induction false} ExpectedData(t: Tables, m: Memory, r: ReadRequest, buttons: word, n: nat)
    requires t.Valid() && Shaped(m) && n <= GoodChunks(r) && (AtExt(r) ==> Decryptable(t, m.ext))
    ensures n <= TotalReplies(r)
    ensures DataOf(ExpectedReplies(t, m, r, buttons, 0, n)) == Received(t, m, r, buttons, n)
  {
    hide ExpectedReply, KeyOf, Decryptable, GoodChunks;
    if n > 0 {
      ExpectedData(t, m, r, buttons, n - 1);
      var replies := ExpectedReplies(t, m, r, buttons, 0, n);
      assert replies[..n - 1] == ExpectedReplies(t, m, r, buttons, 0, n - 1);
      ReplyIsChunk(t, m, r, buttons, n - 1);
    }
  }

  lemma ReplyIsChunk(t: Tables, m: Memory, r: ReadRequest, buttons: word, k: nat)
    requires t.Valid() && Shaped(m) && k < GoodChunks(r) && (AtExt(r) ==> Decryptable(t, m.ext))
    ensures k < TotalReplies(r)
    ensures var reply := ExpectedReply(t, m, r, buttons, k); |reply.data| == CHUNK && reply.error == ERROR_SUCCESS
  {
    hide KeyOf, Decryptable, BytesOf;
  }

  /** A multi-chunk read is one atomic read: over any run from an in-range request until it is
      done, without a write of the host, there are ceil(n/16) replies, all successful, and their
      data put together is the registers at request time, encrypted as one block at the starting
      address where encryption is on. */
  lemma ReadIsAtomic(t: Tables, p: Pad, r: ReadRequest, es: seq<Event>)
    requires Inv(t, p) && p.mem.req.size == 0 && r.size > 0 && ValidCommand(ReadData(r))
    requires WholeError(r) == ERROR_SUCCESS && (AtExt(r) ==> Decryptable(t, p.mem.ext))
    requires var start := Hid(t, p, ReadData(r)).0;
             && Legal(t, start, es) && InProgress(t, start, es) && After(t, start, es).mem.req.size == 0
             && forall i :: 0 <= i < |es| ==> !IsWrite(es[i])
    ensures Legal(t, p, [Told(ReadData(r))] + es)
    ensures var replies := ReadReplies(Outs(t, p, [Told(ReadData(r))] + es));
            && |replies| == Chunks(r.size) && DataOf(replies) == Snapshot(t, p.mem, r)
            && forall k :: 0 <= k < |replies| ==> replies[k].error == ERROR_SUCCESS
  {
    hide KeyOf, Hid, ExpectedReply, KeyAgrees, Remaining, Reading, ReadReplies, Snapshot, BytesOf, Received, DataOf,
         Decryptable;
    var n := GoodChunks(r);
    MultiChunkRead(t, p, r, es);
    ReadIsLegal(t, p, r, es);
    InRangeReadIsAtomic(t, p.mem, r, p.buttons);
    AtomicBlock(t, p.mem, r);
    ExpectedData(t, p.mem, r, p.buttons, n);
    forall k | 0 <= k < n ensures ExpectedReplies(t, p.mem, r, p.buttons, 0, n)[k].error == ERROR_SUCCESS {
      ReplyIsChunk(t, p.mem, r, p.buttons, k);
    }
  }

  lemma RepliesAfterStart(t: Tables, p: Pad, r: ReadRequest, start: Pad, es: seq<Event>)
    requires Inv(t, p) && p.mem.req.size == 0 && r.size > 0 && ValidCommand(ReadData(r))
    requires AtExt(r) ==> Decryptable(t, p.mem.ext)
    requires start == Hid(t, p, ReadData(r)).0 && Legal(t, start, es) && InProgress(t, start, es)
    requires forall i :: 0 <= i < |es| ==> !IsWrite(es[i])
    ensures 1 + Ticks(es) <= TotalReplies(r)
    ensures ReadReplies(Hid(t, p, ReadData(r)).1 + Outs(t, start, es)) ==
            ExpectedReplies(t, p.mem, r, p.buttons, 0, 1 + Ticks(es))
    ensures After(t, start, es).mem.req == Remaining(r, 1 + Ticks(es))
  {
    hide KeyOf, Hid, ExpectedReply, ExpectedReplies, KeyAgrees, Remaining, TotalReplies, After, Outs, ReadReplies;
    StepKeepsInv(t, p, Told(ReadData(r)));
    FirstReply(t, p, r);
    ReadingRun(t, p.mem, r, start, 1, es);
    ReadRepliesAppend(Hid(t, p, ReadData(r)).1, Outs(t, start, es));
    ExpectedSplit(t, p.mem, r, p.buttons, 0, 1, Ticks(es));
  }

  lemma DoneIffAllSent(r: ReadRequest, k: nat)
    requires r.size > 0 && k <= TotalReplies(r)
    ensures Remaining(r, k).size == 0 <==> k == TotalReplies(r)
  {
  }

  lemma ReadIsLegal(t: Tables, p: Pad, r: ReadRequest, es: seq<Event>)
    requires Inv(t, p) && p.mem.req.size == 0 && ValidCommand(ReadData(r))
    requires AtExt(r) ==> Decryptable(t, p.mem.ext)
    requires Legal(t, Hid(t, p, ReadData(r)).0, es)
    ensures var run := [Told(ReadData(r))] + es;
            && Legal(t, p, run)
            && Outs(t, p, run) == Hid(t, p, ReadData(r)).1 + Outs(t, Hid(t, p, ReadData(r)).0, es)
            && After(t, p, run) == After(t, Hid(t, p, ReadData(r)).0, es)
  {
    hide Hid, KeyOf;
    var run := [Told(ReadData(r))] + es;
    assert run[0] == Told(ReadData(r)) && run[1..] == es;
  }

  lemma FirstReply(t: Tables, p: Pad, r: ReadRequest)
    requires Inv(t, p) && p.mem.req.size == 0 && r.size > 0 && ValidCommand(ReadData(r))
    requires AtExt(r) ==> Decryptable(t, p.mem.ext)
    ensures 0 < TotalReplies(r)
    ensures var (p', outs) := Hid(t, p, ReadData(r));
            && Reading(t, p.mem, r, p'.mem, 1) && p'.buttons == p.buttons
            && outs == [ReadReply(ExpectedReply(t, p.mem, r, p.buttons, 0))]
            && ReadReplies(outs) == ExpectedReplies(t, p.mem, r, p.buttons, 0, 1)
  {
    hide KeyOf, ProcessRead, ExpectedReply;
    StartsReading(r);
    var m := StartRead(p, r).mem;
    NextReply(t, p.mem, r, m, 0, p.buttons);
    var out := ReadReply(ExpectedReply(t, p.mem, r, p.buttons, 0));
    assert ReadReplies([out]) == [out.reply] + ReadReplies([out][1..]);
  }

  lemma StartsReading(r: ReadRequest)
    requires 0 < r.size < 0x1_0000 && r.address < 0x1_0000
    ensures TotalReplies(r) > 0 && Remaining(r, 0) == r
  {
  }

  // ---------------------------------------------------------------- extension changes over runs

  /** Change steps between two port states: attached extensions are not swapped directly. */
  function Distance(cur: Extension, target: Extension): nat {
    if cur == target then 0 else if cur == NoExtension || target == NoExtension then 1 else 2
  }

  predicate ChangeDue(p: Pad) {
    p.mem.req.size == 0 && p.newExt != p.curExt
  }

  /** The port changes only on a tick with a change due, one step closer to the target, from or to
      the empty port; that tick sends one status report, telling the new state, and nothing else. */
  lemma PortChange(t: Tables, p: Pad, e: Event)
    requires t.Valid() && Enabled(t, p, e)
    ensures var (p', outs) := Step(t, p, e);
            && (p'.curExt != p.curExt <==> e.Ticked? && ChangeDue(p))
            && (p'.curExt != p.curExt ==>
                  && (p.curExt == NoExtension || p'.curExt == NoExtension)
                  && Distance(p'.curExt, p.newExt) + 1 == Distance(p.curExt, p.newExt)
                  && p'.newExt == p.newExt && p'.mode == REPORT_DISABLED
                  && p'.mem.ext == FreshExtension(p'.curExt)
                  && outs == [StatusReport(p.buttons, p.leds, p.irEnabled, p'.curExt != NoExtension)])
  {
    hide KeyOf, ProcessRead, ProcessWrite, FreshExtension, CameraBytes, Payload, Sampled, SendReport;
    if e.Ticked? && p.mem.req.size == 0 && !ChangeDue(p) && e.input.Sample? {
      SendKeepsPort(t, Sampled(p, e.input));
      SampledKeepsPort(p, e.input);
    }
  }

  lemma SendKeepsPort(t: Tables, p: Pad)
    requires t.Valid() && Shaped(p.mem) && (Reporting(p) && ExtSize(p.mode) > 0 ==> Decryptable(t, p.mem.ext))
    ensures SendReport(t, p).0.curExt == p.curExt
  {
    hide KeyOf, ReadExt, Payload, Decryptable;
  }

  lemma SampledKeepsPort(p: Pad, i: Input)
    requires Shaped(p.mem) && i.Sample? && ValidInput(i)
    ensures Sampled(p, i).curExt == p.curExt
  {
    hide CameraBytes;
  }

  predicate IsSwitch(e: Event) { e.Ticked? && e.input.SwitchExtension? }

  /** Ticks of the run that find no read in progress. */
  ghost function FreeTicks(t: Tables, p: Pad, es: seq<Event>): nat
    requires t.Valid() && Legal(t, p, es)
    decreases |es|
  {
    if es == [] then 0
    else (if es[0].Ticked? && p.mem.req.size == 0 then 1 else 0) + FreeTicks(t, Step(t, p, es[0]).0, es[1..])
  }

  ghost function Changes(t: Tables, p: Pad, es: seq<Event>): nat
    requires t.Valid() && Legal(t, p, es)
    decreases |es|
  {
    if es == [] then 0
    else (if Step(t, p, es[0]).0.curExt != p.curExt then 1 else 0) + Changes(t, Step(t, p, es[0]).0, es[1..])
  }

  /** With a fixed target the port makes exactly the necessary change steps, at most two, on the
      first ticks that find no read in progress, and then stays. */
  lemma {:induction false} TargetReached(t: Tables, p: Pad, es: seq<Event>)
    requires t.Valid() && Legal(t, p, es) && forall i :: 0 <= i < |es| ==> !IsSwitch(es[i])
    ensures var q := After(t, p, es);
            && q.newExt == p.newExt
            && Changes(t, p, es) == Min(Distance(p.curExt, p.newExt), FreeTicks(t, p, es)) <= 2
            && Distance(q.curExt, p.newExt) == Distance(p.curExt, p.newExt) - Changes(t, p, es)
    decreases |es|
  {
    if es != [] {
      var p' := Step(t, p, es[0]).0;
      assert !IsSwitch(es[0]);
      TargetStep(t, p, es[0]);
      TargetReached(t, p', es[1..]);
    }
  }

  lemma TargetStep(t: Tables, p: Pad, e: Event)
    requires t.Valid() && Enabled(t, p, e) && !IsSwitch(e)
    ensures var p' := Step(t, p, e).0;
            && p'.newExt == p.newExt
            && (p'.curExt != p.curExt <==> e.Ticked? && ChangeDue(p))
            && (p'.curExt != p.curExt ==> Distance(p'.curExt, p.newExt) + 1 == Distance(p.curExt, p.newExt))
  {
    hide KeyOf, ProcessRead, ProcessWrite, FreshExtension, CameraBytes, Payload;
    PortChange(t, p, e);
  }

  predicate IsModeCommand(e: Event) { e.Told? && e.command.ReportMode? }

  predicate NoDataReports(outs: seq<Out>) {
    forall i :: 0 <= i < |outs| ==> !outs[i].DataReport?
  }

  /** While reporting is disabled and the host does not set a mode, no data report is sent. */
  lemma {:induction false} SilentUntilModeSet(t: Tables, p: Pad, es: seq<Event>)
    requires t.Valid() && Legal(t, p, es) && p.mode == REPORT_DISABLED
    requires forall i :: 0 <= i < |es| ==> !IsModeCommand(es[i])
    ensures NoDataReports(Outs(t, p, es)) && After(t, p, es).mode == REPORT_DISABLED
    decreases |es|
  {
    hide KeyOf, Step, Enabled;
    if es != [] {
      var (p', outs) := Step(t, p, es[0]);
      assert !IsModeCommand(es[0]);
      SilentStep(t, p, es[0]);
      SilentUntilModeSet(t, p', es[1..]);
    }
  }

  lemma SilentStep(t: Tables, p: Pad, e: Event)
    requires t.Valid() && Enabled(t, p, e) && p.mode == REPORT_DISABLED && !IsModeCommand(e)
    ensures Step(t, p, e).0.mode == REPORT_DISABLED && NoDataReports(Step(t, p, e).1)
  {
    match e
    case Ticked(i) => SilentTick(t, p, i);
    case Told(c) => SilentHid(t, p, c);
  }

  lemma SilentTick(t: Tables, p: Pad, i: Input)
    requires t.Valid() && Enabled(t, p, Ticked(i)) && p.mode == REPORT_DISABLED
    ensures Tick(t, p, i).0.mode == REPORT_DISABLED && NoDataReports(Tick(t, p, i).1)
  {
    hide KeyOf, ProcessRead, FreshExtension, CameraBytes, Payload, ReadExt;
  }

  lemma SilentHid(t: Tables, p: Pad, c: HidCommand)
    requires t.Valid() && Enabled(t, p, Told(c)) && p.mode == REPORT_DISABLED && !c.ReportMode?
    ensures Hid(t, p, c).0.mode == REPORT_DISABLED && NoDataReports(Hid(t, p, c).1)
  {
    hide KeyOf, ProcessRead, ProcessWrite, ChunkReadsExt, Decryptable, Encrypted;
    match c
    case Led(_, ack) =>
    case IrEnable(_, ack) =>
    case FeatureAck(_, ack) =>
    case WriteData(w) =>
    case ReadData(r) =>
    case _ =>
  }

  /** So after a port change, however the run goes on, data reports wait for the host's next
      report-mode command. */
  lemma SilentAfterChange(t: Tables, p: Pad, i: Input, es: seq<Event>)
    requires t.Valid() && ChangeDue(p) && Enabled(t, p, Ticked(i))
    requires Legal(t, Step(t, p, Ticked(i)).0, es) && forall i :: 0 <= i < |es| ==> !IsModeCommand(es[i])
    ensures NoDataReports(Step(t, p, Ticked(i)).1)
    ensures NoDataReports(Outs(t, Step(t, p, Ticked(i)).0, es))
  {
    hide KeyOf, Tick, Hid, FreshExtension, Outs, Step, Enabled, Legal;
    ChangingTick(t, p, i);
    SilentUntilModeSet(t, Step(t, p, Ticked(i)).0, es);
  }

  lemma ChangingTick(t: Tables, p: Pad, i: Input)
    requires t.Valid() && ChangeDue(p) && Enabled(t, p, Ticked(i))
    ensures var (p', outs) := Step(t, p, Ticked(i)); p'.mode == REPORT_DISABLED && NoDataReports(outs)
  {
    hide KeyOf, FreshExtension, ProcessRead, SendReport, Sampled;
  }

  // ---------------------------------------------------------------- data reports at the host

  function IrBytes(p: Pad): (s: seq<byte>)
    requires Shaped(p.mem)
    ensures |s| == IrSize(p.mode)
  {
    p.mem.ir[CAMERA_DATA_AT..CAMERA_DATA_AT + IrSize(p.mode)]
  }

  /** The extension bytes of a report, encrypted under the key of the current key bytes. */
  ghost function ExtBytes(t: Tables, p: Pad): (s: seq<byte>)
    requires t.Valid() && Shaped(p.mem) && (ExtSize(p.mode) > 0 ==> Decryptable(t, p.mem.ext))
    ensures |s| == ExtSize(p.mode)
  {
    var plain := p.mem.ext[..ExtSize(p.mode)];
    if Encrypted(p.mem.ext) && ExtSize(p.mode) > 0 then Encrypt(KeyOf(t, KeyBytes(p.mem.ext)), 0, plain) else plain
  }

  lemma SendReportShape(t: Tables, p: Pad)
    requires Inv(t, p) && Reporting(p) && (ExtSize(p.mode) > 0 ==> Decryptable(t, p.mem.ext))
    ensures SendReport(t, p).1 ==
            [DataReport(p.mode, Payload(p.mode, p.buttons, p.acc, IrBytes(p), ExtBytes(t, p)))]
  {
    hide KeyOf, Payload;
    if ExtSize(p.mode) > 0 {
      ReadExtKeepsKey(t, p.mem, 0, ExtSize(p.mode));
      assert p.mem.ext[0..ExtSize(p.mode)] == p.mem.ext[..ExtSize(p.mode)];
    } else {
      assert ExtBytes(t, p) == [];
    }
  }

  /** The extension bytes a host finds in a report, decrypted as it would. */
  ghost function HostExt(t: Tables, ext: seq<byte>, mode: byte, s: seq<byte>): seq<byte>
    requires t.Valid() && |ext| == REGISTERS_SIZE && Decryptable(t, ext) && ExtOffset(mode) + ExtSize(mode) <= |s|
  {
    var got := s[ExtOffset(mode)..ExtOffset(mode) + ExtSize(mode)];
    if Encrypted(ext) then Decrypt(KeyOf(t, KeyBytes(ext)), 0, got) else got
  }

  /** Whatever mode and cipher state, a data report has the size of its mode, and the host decodes
      from it the buttons just sampled, the acceleration (the lowest bit short in y and z), the
      camera bytes and the extension bytes. */
  lemma ReportReachesHost(t: Tables, p: Pad, i: Input)
    requires Inv(t, p) && Enabled(t, p, Ticked(i)) && p.mem.req.size == 0 && p.newExt == p.curExt
    requires i.Sample? && Reporting(Sampled(p, i))
    ensures var q := Sampled(p, i);
            exists s :: Tick(t, p, i).1 == [DataReport(p.mode, s)] && Decoded(t, q, s)
    ensures Sampled(p, i).buttons == i.buttons
    ensures Sampled(p, i).acc == if i.acc.Some? then MaskAcc(i.acc.value) else p.acc
    ensures i.extData.Some? ==> Sampled(p, i).mem.ext[..EXT_DATA_SIZE] == i.extData.value
  {
    hide KeyOf, Payload, CameraBytes;
    var q := Sampled(p, i);
    SampledKeepsInv(t, p, i);
    SendReportShape(t, q);
    PayloadDecodes(t, q);
    assert Tick(t, p, i).1 == [DataReport(p.mode, Payload(q.mode, q.buttons, q.acc, IrBytes(q), ExtBytes(t, q)))];
  }

  /** What decoding report s gives, compared with pad q. */
  ghost predicate Decoded(t: Tables, q: Pad, s: seq<byte>)
    requires t.Valid() && Shaped(q.mem)
  {
    && |s| == ReportSize(q.mode)
    && (AccSize(q.mode) > 0 ==>
          |s| >= 5 && HostWord(s) & !ACC_BITS == q.buttons
          && HostX(s) == q.acc.x && HostY(s) == q.acc.y & 0x3FE && HostZ(s) == q.acc.z & 0x3FE)
    && (AccSize(q.mode) == 0 && HasBtn(q.mode) ==> |s| >= 2 && HostWord(s) == q.buttons)
    && (IrSize(q.mode) > 0 ==>
          && IrOffset(q.mode) + IrSize(q.mode) <= |s|
          && s[IrOffset(q.mode)..IrOffset(q.mode) + IrSize(q.mode)] ==
             q.mem.ir[CAMERA_DATA_AT..CAMERA_DATA_AT + IrSize(q.mode)])
    && (ExtSize(q.mode) > 0 ==>
          && ExtOffset(q.mode) + ExtSize(q.mode) <= |s| && Decryptable(t, q.mem.ext)
          && HostExt(t, q.mem.ext, q.mode, s) == q.mem.ext[..ExtSize(q.mode)])
  }

  lemma PayloadDecodes(t: Tables, q: Pad)
    requires Inv(t, q) && (ExtSize(q.mode) > 0 ==> Decryptable(t, q.mem.ext))
    ensures Decoded(t, q, Payload(q.mode, q.buttons, q.acc, IrBytes(q), ExtBytes(t, q)))
  {
    hide KeyOf, Payload, HostWord, HostX, HostY, HostZ, ExtBytes, IrBytes, AccSize, ExtSize, IrSize, HasBtn;
    var id, ir, ext := q.mode, IrBytes(q), ExtBytes(t, q);
    SegmentsTile(id);
    SegmentsAreRead(id, q.buttons, q.acc, ir, ext);
    if AccSize(id) > 0 {
      AccReportDecodes(id, q.buttons, q.acc, ir, ext);
    } else if HasBtn(id) {
      PlainReportDecodes(id, q.buttons, q.acc, ir, ext);
    }
    IrBytesAre(q);
    if ExtSize(id) > 0 {
      HostReadsExt(t, q, Payload(id, q.buttons, q.acc, ir, ext));
    }
  }

  lemma IrBytesAre(q: Pad)
    requires Shaped(q.mem)
    ensures IrBytes(q) == q.mem.ir[CAMERA_DATA_AT..CAMERA_DATA_AT + IrSize(q.mode)]
  {
  }

  lemma HostReadsExt(t: Tables, q: Pad, s: seq<byte>)
    requires t.Valid() && Shaped(q.mem) && ExtSize(q.mode) > 0 && Decryptable(t, q.mem.ext)
    requires ExtOffset(q.mode) + ExtSize(q.mode) <= |s|
    requires s[ExtOffset(q.mode)..ExtOffset(q.mode) + ExtSize(q.mode)] == ExtBytes(t, q)
    ensures HostExt(t, q.mem.ext, q.mode, s) == q.mem.ext[..ExtSize(q.mode)]
  {
    hide KeyOf;
    if Encrypted(q.mem.ext) {
      DecryptInvertsEncrypt(KeyOf(t, KeyBytes(q.mem.ext)), 0, q.mem.ext[..ExtSize(q.mode)]);
    }
  }

  /** In basic and in extended camera mode the host unpacks exactly the dots of the last sample. */
  lemma DotsReachHost(p: Pad, i: Input)
    requires Shaped(p.mem) && i.Sample? && ValidInput(i)
    requires i.x0 < 0x400 && i.y0 < 0x400 && i.x1 < 0x400 && i.y1 < 0x400
    ensures var camera := Sampled(p, i).mem.ir[CAMERA_DATA_AT..CAMERA_DATA_AT + 12];
            && (p.mem.ir[CAMERA_MODE_AT] == IR_MODE_BASIC ==>
                  BasicDots(camera[..10]) == ((i.x0, i.y0), (i.x1, i.y1)))
            && (p.mem.ir[CAMERA_MODE_AT] == IR_MODE_EXTENDED ==>
                  ExtendedDot(camera, 0) == (i.x0, i.y0) && ExtendedDot(camera, 3) == (i.x1, i.y1))
  {
    hide BasicDots, ExtendedDot, CameraBytes;
    var bytes := CameraBytes(p.mem.ir[CAMERA_MODE_AT], i.x0, i.y0, i.x1, i.y1);
    CameraBytesDecode(i.x0, i.y0, i.x1, i.y1);
    var camera := Sampled(p, i).mem.ir[CAMERA_DATA_AT..CAMERA_DATA_AT + 12];
    if p.mem.ir[CAMERA_MODE_AT] == IR_MODE_BASIC {
      assert camera[..10] == bytes;
    } else if p.mem.ir[CAMERA_MODE_AT] == IR_MODE_EXTENDED {
      assert camera == bytes;
    }
  }
}
