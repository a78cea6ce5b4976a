/**
 * From the gamepad to the host: the mapping tables and the sampling of source/input_device.c, and
 * what the host decodes for every state of a gamepad.
 */
module Gamepad {
  import opened Bytes
  import opened Crypto
  import opened Registers
  import opened Reports
  import opened ButtonMap
  import opened Pad

  /** The buttons that the tables mention; a gamepad may have others. */
  datatype Button =
    | North | East | South | West
    | DpadUp | DpadDown | DpadLeft | DpadRight
    | Start | Back | LeftStick | LeftShoulder | RightShoulder | LeftPaddle1 | RightPaddle1
    | OtherButton

  datatype Axis = LeftX | LeftY | RightX | RightY | OtherAxis

  /** Which button and which axis has which number; the gamepad library decides. */
  datatype Numbering = Numbering(buttons: seq<Button>, axes: seq<Axis>)

  /** One state of a gamepad: bit i of buttons is button number i, axes are signed 16-bit values,
      and the IR dots, of unsigned 16-bit coordinates, are where the emulation put them. */
  datatype State = State(buttons: nat, axes: seq<int>, acc: Option<Acc>, dot0: Dot, dot1: Dot)

  predicate Fits(n: Numbering, g: State) {
    && |g.axes| == |n.axes| && (forall i :: 0 <= i < |g.axes| ==> -0x8000 <= g.axes[i] < 0x8000)
    && 0 <= g.dot0.x < 0x1_0000 && 0 <= g.dot0.y < 0x1_0000 && 0 <= g.dot1.x < 0x1_0000 && 0 <= g.dot1.y < 0x1_0000
  }

  /** The camera counts in ten bits. */
  predicate TenBitDots(g: State) {
    0 <= g.dot0.x < 0x400 && 0 <= g.dot0.y < 0x400 && 0 <= g.dot1.x < 0x400 && 0 <= g.dot1.y < 0x400
  }

  // ---------------------------------------------------------------- the tables

  function WiimoteBit(b: Button): word {
    match b
    case West => 0x0001
    case North => 0x0002
    case East => 0x0004
    case South => 0x0008
    case Back => 0x0010
    case LeftStick => 0x0080
    case DpadLeft => 0x0100
    case DpadRight => 0x0200
    case DpadDown => 0x0400
    case DpadUp => 0x0800
    case Start => 0x1000
    case _ => 0
  }

  function NunchukBit(b: Button): word {
    match b
    case LeftShoulder => NUNCHUK_BUTTON_C
    case RightShoulder => NUNCHUK_BUTTON_Z
    case _ => 0
  }

  function ClassicBit(b: Button): word {
    match b
    case DpadUp => 0x0001
    case DpadLeft => 0x0002
    case RightPaddle1 => 0x0004
    case North => 0x0008
    case East => 0x0010
    case West => 0x0020
    case South => 0x0040
    case LeftPaddle1 => 0x0080
    case RightShoulder => CLASSIC_BUTTON_FULL_R
    case Start => 0x0400
    case LeftStick => 0x0800
    case Back => 0x1000
    case LeftShoulder => CLASSIC_BUTTON_FULL_L
    case DpadDown => 0x4000
    case DpadRight => 0x8000
    case OtherButton => 0
  }

  function Table(bs: seq<Button>, f: Button -> word): (r: seq<word>)
    ensures |r| == |bs|
  {
    seq(|bs|, i requires 0 <= i < |bs| => f(bs[i]))
  }

  function WiimoteTable(n: Numbering): seq<word> { Table(n.buttons, WiimoteBit) }

  lemma EntryIsClear(b: Button)
    ensures !Hits(WiimoteBit(b), ACC_BITS)
  {
  }

  /** No button of the table shares a bit with the acceleration, in any combination. */
  lemma ButtonsLeaveAcceleration(n: Numbering, buttons: nat)
    ensures Mapped(0, buttons, WiimoteTable(n)) & ACC_BITS == 0
  {
    hide WiimoteBit;
    forall i | 0 <= i < |WiimoteTable(n)| ensures !Hits(WiimoteTable(n)[i], ACC_BITS) {
      EntryIsClear(n.buttons[i]);
    }
    MappedStaysClear(buttons, WiimoteTable(n), ACC_BITS);
  }

  // ---------------------------------------------------------------- sticks

  /** s16_to_u8 */
  function StickByte(v: int): (b: byte)
    requires -0x8000 <= v < 0x8000
    ensures b as int == 0x80 + v / 0x100
  {
    Byte(0x80 + v / 0x100)
  }

  /** A resting stick reads 0x80, its ends 0 and 0xFF, and pushing it further never reads less. */
  lemma SticksFollow(v: int, w: int)
    requires -0x8000 <= v <= w < 0x8000
    ensures StickByte(v) as int <= StickByte(w) as int
    ensures StickByte(-0x8000) == 0 && StickByte(0) == 0x80 && StickByte(0x7FFF) == 0xFF
  {
    ByteUnique(StickByte(0), 0x80);
    ByteUnique(StickByte(0x7FFF), 0xFF);
  }

  /** The last of the first n axes of that name decides; a missing axis stays at zero. */
  function StickOf(axes: seq<int>, names: seq<Axis>, a: Axis, n: nat): byte
    requires n <= |axes| == |names| && forall i :: 0 <= i < |axes| ==> -0x8000 <= axes[i] < 0x8000
  {
    if n == 0 then 0
    else if names[n - 1] == a then StickByte(axes[n - 1])
    else StickOf(axes, names, a, n - 1)
  }

  /** The loop over the axes in bm_map_nunchuk and bm_map_classic; place says where
      each axis that matters goes. */
  method MapSticks(axes: seq<int>, names: seq<Axis>, place: map<Axis, nat>, count: nat) returns (sticks: array<byte>)
    requires |axes| == |names| && forall i :: 0 <= i < |axes| ==> -0x8000 <= axes[i] < 0x8000
    requires forall a :: a in place ==> place[a] < count
    requires forall a, b :: a in place && b in place && a != b ==> place[a] != place[b]
    ensures fresh(sticks) && sticks.Length == count
    ensures forall a :: a in place ==> sticks[place[a]] == StickOf(axes, names, a, |axes|)
  {
    sticks := new byte[count](_ => 0);
    for i := 0 to |axes|
      invariant forall a :: a in place ==> sticks[place[a]] == StickOf(axes, names, a, i)
    {
      if names[i] in place {
        sticks[place[names[i]]] := StickByte(axes[i]);
      }
    }
  }

  // ---------------------------------------------------------------- one sample

  function Stick(n: Numbering, g: State, a: Axis): byte
    requires Fits(n, g)
  {
    StickOf(g.axes, n.axes, a, |g.axes|)
  }

  /** The Wiimote's own buttons are mapped in Nunchuk layout only. */
  function WiimoteButtons(n: Numbering, g: State, layout: Extension): word {
    if layout == Nunchuk then Mapped(0, g.buttons, WiimoteTable(n)) else 0
  }

  function ExtensionData(n: Numbering, g: State, layout: Extension): (r: Option<seq<byte>>)
    requires Fits(n, g)
    ensures r.Some? <==> layout == Nunchuk || layout == Classic
    ensures r.Some? ==> |r.value| == EXT_DATA_SIZE
  {
    match layout
    case Nunchuk =>
      Some(NunchukFormat(Mapped(0, g.buttons, Table(n.buttons, NunchukBit)),
                         Stick(n, g, LeftX), Stick(n, g, LeftY), 0, 0, 0))
    case Classic =>
      Some(ClassicFormat(Mapped(0, g.buttons, Table(n.buttons, ClassicBit)),
                         Stick(n, g, LeftX), Stick(n, g, LeftY), Stick(n, g, RightX), Stick(n, g, RightY)))
    case _ => None
  }

  /** input_device_report_input, when no combination is pressed. */
  function SampleOf(n: Numbering, g: State, layout: Extension): (i: Input)
    requires Fits(n, g)
    ensures i.Sample?
  {
    Sample(WiimoteButtons(n, g, layout), g.acc, Word(g.dot0.x), Word(g.dot0.y), Word(g.dot1.x), Word(g.dot1.y),
           ExtensionData(n, g, layout))
  }

  /** Every gamepad state gives a sample that the pad takes. */
  lemma SampleIsValid(n: Numbering, g: State, layout: Extension)
    requires Fits(n, g)
    ensures ValidInput(SampleOf(n, g, layout))
  {
    hide Mapped, WiimoteTable;
    ButtonsLeaveAcceleration(n, g.buttons);
    ZeroIsClear();
  }

  lemma ZeroIsClear()
    ensures (0 as word) & ACC_BITS == 0
  {
  }

  /** Button number i of the gamepad is pressed, and table f maps it to the given bit. */
  predicate PressedAs(n: Numbering, f: Button -> word, buttons: nat, bit: word, i: nat) {
    i < |n.buttons| && Pressed(buttons, i) && Hits(f(n.buttons[i]), bit)
  }

  ghost predicate SomePressedAs(n: Numbering, f: Button -> word, buttons: nat, bit: word) {
    exists i: nat :: PressedAs(n, f, buttons, bit, i)
  }

  /** Through any of the tables: a bit is set exactly if a gamepad button mapped to it is pressed. */
  lemma PressedButtons(n: Numbering, f: Button -> word, buttons: nat, bit: word)
    ensures Hits(Mapped(0, buttons, Table(n.buttons, f)), bit) <==> SomePressedAs(n, f, buttons, bit)
  {
    var table := Table(n.buttons, f);
    MappedBit(0, buttons, table, bit);
    NothingHits(bit);
    if i: nat :| PressedWith(buttons, table, bit, i) {
      assert PressedAs(n, f, buttons, bit, i);
    }
    if i: nat :| PressedAs(n, f, buttons, bit, i) {
      assert PressedWith(buttons, table, bit, i);
    }
  }

  /** A gamepad button of this name is pressed. */
  ghost predicate IsPressed(n: Numbering, buttons: nat, b: Button) {
    exists i :: 0 <= i < |n.buttons| && n.buttons[i] == b && Pressed(buttons, i)
  }

  /** A bit that the table has for one name only tells whether that button is pressed. */
  lemma OneName(n: Numbering, f: Button -> word, buttons: nat, bit: word, b: Button)
    requires forall c: Button :: Hits(f(c), bit) <==> c == b
    ensures Hits(Mapped(0, buttons, Table(n.buttons, f)), bit) <==> IsPressed(n, buttons, b)
  {
    hide Hits, Mapped;
    PressedButtons(n, f, buttons, bit);
    if i: nat :| PressedAs(n, f, buttons, bit, i) {
      assert n.buttons[i] == b;
    }
    if IsPressed(n, buttons, b) {
      var i :| 0 <= i < |n.buttons| && n.buttons[i] == b && Pressed(buttons, i);
      assert PressedAs(n, f, buttons, bit, i);
    }
  }

  lemma WiimoteEntry(b: Button)
    ensures Hits(WiimoteBit(b), 0x0008) <==> b == South
    ensures Hits(WiimoteBit(b), 0x0004) <==> b == East
    ensures Hits(WiimoteBit(b), 0x0002) <==> b == North
    ensures Hits(WiimoteBit(b), 0x0001) <==> b == West
    ensures Hits(WiimoteBit(b), 0x1000) <==> b == Start
    ensures Hits(WiimoteBit(b), 0x0010) <==> b == Back
    ensures Hits(WiimoteBit(b), 0x0080) <==> b == LeftStick
    ensures Hits(WiimoteBit(b), 0x0100) <==> b == DpadLeft
    ensures Hits(WiimoteBit(b), 0x0200) <==> b == DpadRight
    ensures Hits(WiimoteBit(b), 0x0400) <==> b == DpadDown
    ensures Hits(WiimoteBit(b), 0x0800) <==> b == DpadUp
  {
  }

  /** The Wiimote's buttons A, B, 1, 2, plus, minus, home, left, right, down, up, in this order. */
  lemma WiimoteButtonNames(n: Numbering, buttons: nat)
    ensures var w := Mapped(0, buttons, WiimoteTable(n));
            && (Hits(w, 0x0008) <==> IsPressed(n, buttons, South)) && (Hits(w, 0x0004) <==> IsPressed(n, buttons, East))
            && (Hits(w, 0x0002) <==> IsPressed(n, buttons, North)) && (Hits(w, 0x0001) <==> IsPressed(n, buttons, West))
            && (Hits(w, 0x1000) <==> IsPressed(n, buttons, Start)) && (Hits(w, 0x0010) <==> IsPressed(n, buttons, Back))
            && (Hits(w, 0x0080) <==> IsPressed(n, buttons, LeftStick))
            && (Hits(w, 0x0100) <==> IsPressed(n, buttons, DpadLeft)) && (Hits(w, 0x0200) <==> IsPressed(n, buttons, DpadRight))
            && (Hits(w, 0x0400) <==> IsPressed(n, buttons, DpadDown)) && (Hits(w, 0x0800) <==> IsPressed(n, buttons, DpadUp))
  {
    hide Mapped, IsPressed, Hits, WiimoteBit;
    forall b: Button { WiimoteEntry(b); }
    OneName(n, WiimoteBit, buttons, 0x0008, South);
    OneName(n, WiimoteBit, buttons, 0x0004, East);
    OneName(n, WiimoteBit, buttons, 0x0002, North);
    OneName(n, WiimoteBit, buttons, 0x0001, West);
    OneName(n, WiimoteBit, buttons, 0x1000, Start);
    OneName(n, WiimoteBit, buttons, 0x0010, Back);
    OneName(n, WiimoteBit, buttons, 0x0080, LeftStick);
    OneName(n, WiimoteBit, buttons, 0x0100, DpadLeft);
    OneName(n, WiimoteBit, buttons, 0x0200, DpadRight);
    OneName(n, WiimoteBit, buttons, 0x0400, DpadDown);
    OneName(n, WiimoteBit, buttons, 0x0800, DpadUp);
  }

  lemma ExtensionEntry(b: Button)
    ensures Hits(NunchukBit(b), 0x02) <==> b == LeftShoulder
    ensures Hits(NunchukBit(b), 0x01) <==> b == RightShoulder
    ensures Hits(ClassicBit(b), 0x0010) <==> b == East
    ensures Hits(ClassicBit(b), 0x0040) <==> b == South
    ensures Hits(ClassicBit(b), 0x0008) <==> b == North
    ensures Hits(ClassicBit(b), 0x0020) <==> b == West
    ensures Hits(ClassicBit(b), 0x2000) <==> b == LeftShoulder
    ensures Hits(ClassicBit(b), 0x0200) <==> b == RightShoulder
    ensures Hits(ClassicBit(b), 0x0080) <==> b == LeftPaddle1
    ensures Hits(ClassicBit(b), 0x0004) <==> b == RightPaddle1
    ensures Hits(ClassicBit(b), 0x0400) <==> b == Start
    ensures Hits(ClassicBit(b), 0x1000) <==> b == Back
    ensures Hits(ClassicBit(b), 0x0800) <==> b == LeftStick
    ensures Hits(ClassicBit(b), 0x0002) <==> b == DpadLeft
    ensures Hits(ClassicBit(b), 0x8000) <==> b == DpadRight
    ensures Hits(ClassicBit(b), 0x4000) <==> b == DpadDown
    ensures Hits(ClassicBit(b), 0x0001) <==> b == DpadUp
  {
  }

  /** The Nunchuk's C and Z. */
  lemma NunchukButtonNames(n: Numbering, buttons: nat)
    ensures var w := Mapped(0, buttons, Table(n.buttons, NunchukBit));
            && (Hits(w, 0x02) <==> IsPressed(n, buttons, LeftShoulder)) && (Hits(w, 0x01) <==> IsPressed(n, buttons, RightShoulder))
  {
    hide Mapped, IsPressed, Hits, NunchukBit, ClassicBit;
    forall b: Button { ExtensionEntry(b); }
    OneName(n, NunchukBit, buttons, 0x02, LeftShoulder);
    OneName(n, NunchukBit, buttons, 0x01, RightShoulder);
  }

  /** The Classic Controller's a, b, x, y, L, R, ZL, ZR, plus, minus, home, left, right, down, up. */
  lemma ClassicButtonNames(n: Numbering, buttons: nat)
    ensures var w := Mapped(0, buttons, Table(n.buttons, ClassicBit));
            && (Hits(w, 0x0010) <==> IsPressed(n, buttons, East)) && (Hits(w, 0x0040) <==> IsPressed(n, buttons, South))
            && (Hits(w, 0x0008) <==> IsPressed(n, buttons, North)) && (Hits(w, 0x0020) <==> IsPressed(n, buttons, West))
            && (Hits(w, 0x2000) <==> IsPressed(n, buttons, LeftShoulder)) && (Hits(w, 0x0200) <==> IsPressed(n, buttons, RightShoulder))
            && (Hits(w, 0x0080) <==> IsPressed(n, buttons, LeftPaddle1)) && (Hits(w, 0x0004) <==> IsPressed(n, buttons, RightPaddle1))
            && (Hits(w, 0x0400) <==> IsPressed(n, buttons, Start)) && (Hits(w, 0x1000) <==> IsPressed(n, buttons, Back))
            && (Hits(w, 0x0800) <==> IsPressed(n, buttons, LeftStick))
            && (Hits(w, 0x0002) <==> IsPressed(n, buttons, DpadLeft)) && (Hits(w, 0x8000) <==> IsPressed(n, buttons, DpadRight))
            && (Hits(w, 0x4000) <==> IsPressed(n, buttons, DpadDown)) && (Hits(w, 0x0001) <==> IsPressed(n, buttons, DpadUp))
  {
    hide Mapped, IsPressed, Hits, ClassicBit, NunchukBit;
    forall b: Button { ExtensionEntry(b); }
    OneName(n, ClassicBit, buttons, 0x0010, East);
    OneName(n, ClassicBit, buttons, 0x0040, South);
    OneName(n, ClassicBit, buttons, 0x0008, North);
    OneName(n, ClassicBit, buttons, 0x0020, West);
    OneName(n, ClassicBit, buttons, 0x2000, LeftShoulder);
    OneName(n, ClassicBit, buttons, 0x0200, RightShoulder);
    OneName(n, ClassicBit, buttons, 0x0080, LeftPaddle1);
    OneName(n, ClassicBit, buttons, 0x0004, RightPaddle1);
    OneName(n, ClassicBit, buttons, 0x0400, Start);
    OneName(n, ClassicBit, buttons, 0x1000, Back);
    OneName(n, ClassicBit, buttons, 0x0800, LeftStick);
    OneName(n, ClassicBit, buttons, 0x0002, DpadLeft);
    OneName(n, ClassicBit, buttons, 0x8000, DpadRight);
    OneName(n, ClassicBit, buttons, 0x4000, DpadDown);
    OneName(n, ClassicBit, buttons, 0x0001, DpadUp);
  }

  // ---------------------------------------------------------------- what a host sees

  /** What six extension bytes say about a gamepad. */
  ghost predicate ExtensionShows(n: Numbering, g: State, layout: Extension, d: seq<byte>)
    requires Fits(n, g) && |d| == EXT_DATA_SIZE
  {
    match layout
    case Nunchuk =>
      var r := NunchukRead(d);
      && r.jx == Stick(n, g, LeftX) && r.jy == Stick(n, g, LeftY) && r.ax == r.ay == r.az == 0
      && (r.c <==> SomePressedAs(n, NunchukBit, g.buttons, NUNCHUK_BUTTON_C))
      && (r.z <==> SomePressedAs(n, NunchukBit, g.buttons, NUNCHUK_BUTTON_Z))
    case Classic =>
      var r := ClassicRead(d);
      && r.lx == Stick(n, g, LeftX) >> 2 && r.ly == Stick(n, g, LeftY) >> 2
      && r.rx == Stick(n, g, RightX) >> 3 && r.ry == Stick(n, g, RightY) >> 3
      && r.lt == Trigger(SomePressedAs(n, ClassicBit, g.buttons, CLASSIC_BUTTON_FULL_L))
      && r.rt == Trigger(SomePressedAs(n, ClassicBit, g.buttons, CLASSIC_BUTTON_FULL_R))
      && forall bit: word :: Hits(r.buttons, bit) <==> SomePressedAs(n, ClassicBit, g.buttons, bit)
    case _ => true
  }

  lemma NunchukShows(n: Numbering, g: State)
    requires Fits(n, g)
    ensures ExtensionShows(n, g, Nunchuk, ExtensionData(n, g, Nunchuk).value)
  {
    hide NunchukRead, NunchukFormat, Mapped, SomePressedAs, Hits, Stick;
    var buttons := Mapped(0, g.buttons, Table(n.buttons, NunchukBit));
    NunchukDecodes(buttons, Stick(n, g, LeftX), Stick(n, g, LeftY), 0, 0, 0);
    PressedButtons(n, NunchukBit, g.buttons, NUNCHUK_BUTTON_C);
    PressedButtons(n, NunchukBit, g.buttons, NUNCHUK_BUTTON_Z);
    ZeroAcc();
  }

  lemma ZeroAcc()
    ensures (0 as word) & 0x3FF == 0
  {
  }

  lemma ClassicShows(n: Numbering, g: State)
    requires Fits(n, g)
    ensures ExtensionShows(n, g, Classic, ExtensionData(n, g, Classic).value)
  {
    hide ClassicRead, ClassicFormat, Mapped, SomePressedAs, Hits, Stick, Trigger;
    var buttons := Mapped(0, g.buttons, Table(n.buttons, ClassicBit));
    ClassicDecodes(buttons, Stick(n, g, LeftX), Stick(n, g, LeftY), Stick(n, g, RightX), Stick(n, g, RightY));
    PressedButtons(n, ClassicBit, g.buttons, CLASSIC_BUTTON_FULL_L);
    PressedButtons(n, ClassicBit, g.buttons, CLASSIC_BUTTON_FULL_R);
    ClassicBitsKnown(n, g.buttons);
    forall bit: word ensures Hits(buttons, bit) <==> SomePressedAs(n, ClassicBit, g.buttons, bit) {
      PressedButtons(n, ClassicBit, g.buttons, bit);
    }
  }

  lemma ClassicEntryKnown(b: Button)
    ensures !Hits(ClassicBit(b), 0x0100)
  {
  }

  /** The table has no entry outside the Classic Controller's buttons. */
  lemma ClassicBitsKnown(n: Numbering, buttons: nat)
    ensures var w := Mapped(0, buttons, Table(n.buttons, ClassicBit)); w & CLASSIC_BUTTON_ALL == w
  {
    hide ClassicBit, Mapped;
    var table := Table(n.buttons, ClassicBit);
    forall i | 0 <= i < |table| ensures !Hits(table[i], 0x0100) {
      ClassicEntryKnown(n.buttons[i]);
    }
    MappedStaysClear(buttons, table, 0x0100);
    OnlyUnknownMissing(Mapped(0, buttons, table));
  }

  lemma OnlyUnknownMissing(w: word)
    requires !Hits(w, 0x0100)
    ensures w & CLASSIC_BUTTON_ALL == w
  {
  }

  /** In the camera mode that belongs to the report mode the host finds the two dots. */
  predicate ShowsDots(q: Pad, g: State, s: seq<byte>)
    requires Shaped(q.mem)
  {
    && (IrSize(q.mode) == 10 && q.mem.ir[CAMERA_MODE_AT] == IR_MODE_BASIC ==>
          && IrOffset(q.mode) + 10 <= |s|
          && var (d0, d1) := BasicDots(s[IrOffset(q.mode)..IrOffset(q.mode) + 10]);
             && Val(d0.0) == g.dot0.x && Val(d0.1) == g.dot0.y && Val(d1.0) == g.dot1.x && Val(d1.1) == g.dot1.y)
    && (IrSize(q.mode) == 12 && q.mem.ir[CAMERA_MODE_AT] == IR_MODE_EXTENDED ==>
          && IrOffset(q.mode) + 12 <= |s|
          && var ir := s[IrOffset(q.mode)..IrOffset(q.mode) + 12];
             var (d0, d1) := (ExtendedDot(ir, 0), ExtendedDot(ir, 3));
             && Val(d0.0) == g.dot0.x && Val(d0.1) == g.dot0.y && Val(d1.0) == g.dot1.x && Val(d1.1) == g.dot1.y)
  }

  /** What the host reads from report s about a gamepad state. */
  ghost predicate Shows(t: Tables, q: Pad, n: Numbering, g: State, layout: Extension, s: seq<byte>)
    requires t.Valid() && Shaped(q.mem) && Fits(n, g)
  {
    && Decoded(t, q, s)
    && (HasBtn(q.mode) ==>
          && |s| >= 2
          && forall bit: word ::
               Hits(HostButtons(q.mode, s), bit) <==> layout == Nunchuk && SomePressedAs(n, WiimoteBit, g.buttons, bit))
    && (AccSize(q.mode) > 0 && g.acc.Some? ==>
          && HostX(s) == g.acc.value.x & 0x3FF
          && HostY(s) == g.acc.value.y & 0x3FE && HostZ(s) == g.acc.value.z & 0x3FE)
    && (TenBitDots(g) ==> ShowsDots(q, g, s))
    && (ExtSize(q.mode) > 0 ==>
          && EXT_DATA_SIZE <= |HostExt(t, q.mem.ext, q.mode, s)|
          && ExtensionShows(n, g, layout, HostExt(t, q.mem.ext, q.mode, s)[..EXT_DATA_SIZE]))
  }

  /** In the modes with acceleration some bits of the word are not buttons. */
  function HostButtons(mode: byte, s: seq<byte>): word
    requires |s| >= 2
  {
    if AccSize(mode) > 0 then HostWord(s) & !ACC_BITS else HostWord(s)
  }

  /** For every state of the gamepad, in either layout, every report mode and either cipher state:
      when the tick reports, the host sees exactly the buttons whose gamepad buttons are pressed,
      the gamepad's acceleration, the IR dots, and its sticks and extension buttons. Nothing is
      assumed of the buttons. */
  lemma GamepadReachesHost(t: Tables, p: Pad, n: Numbering, g: State, layout: Extension)
    requires Inv(t, p) && Fits(n, g) && p.mem.req.size == 0 && p.newExt == p.curExt
    requires layout == Nunchuk || layout == Classic
    requires var i := SampleOf(n, g, layout);
             ValidInput(i) ==> TickReadable(t, p, i) && Reporting(Sampled(p, i))
    ensures var i := SampleOf(n, g, layout);
            && Enabled(t, p, Ticked(i))
            && exists s :: Tick(t, p, i).1 == [DataReport(p.mode, s)] && Shows(t, Sampled(p, i), n, g, layout, s)
  {
    hide KeyOf, Mapped, WiimoteTable, ExtensionData, Decoded, Tick, TickReadable, Sampled, Inv, Reporting, ShowsDots,
         ExtensionShows, SomePressedAs, WiimoteButtons;
    var i := SampleOf(n, g, layout);
    SampleIsValid(n, g, layout);
    InvIsShaped(t, p);
    ReportReachesHost(t, p, i);
    var q := Sampled(p, i);
    var s :| Tick(t, p, i).1 == [DataReport(p.mode, s)] && Decoded(t, q, s);
    WiimoteShows(n, g, layout);
    if TenBitDots(g) {
      DotsInReport(t, p, n, g, layout, s);
    }
    if layout == Nunchuk {
      NunchukShows(n, g);
    } else {
      ClassicShows(n, g);
    }
    DecodedShows(t, q, n, g, layout, s);
  }

  lemma WiimoteShows(n: Numbering, g: State, layout: Extension)
    ensures forall bit: word ::
              Hits(WiimoteButtons(n, g, layout), bit) <==> layout == Nunchuk && SomePressedAs(n, WiimoteBit, g.buttons, bit)
  {
    hide Mapped, Hits, SomePressedAs, WiimoteBit;
    forall bit: word
      ensures Hits(WiimoteButtons(n, g, layout), bit) <==> layout == Nunchuk && SomePressedAs(n, WiimoteBit, g.buttons, bit)
    {
      PressedButtons(n, WiimoteBit, g.buttons, bit);
      NothingHits(bit);
    }
  }

  /** From the camera registers into the report. */
  lemma DotsInReport(t: Tables, p: Pad, n: Numbering, g: State, layout: Extension, s: seq<byte>)
    requires Shaped(p.mem) && t.Valid() && Fits(n, g) && TenBitDots(g)
    requires ValidInput(SampleOf(n, g, layout)) && Decoded(t, Sampled(p, SampleOf(n, g, layout)), s)
    ensures ShowsDots(Sampled(p, SampleOf(n, g, layout)), g, s)
  {
    hide ExtensionData, WiimoteButtons, CameraBytes, BasicDots, ExtendedDot, Decoded, Sampled, IrSize, IrOffset, SampleOf, Word, Val;
    var i := SampleOf(n, g, layout);
    var q := Sampled(p, i);
    SampleDots(n, g, layout);
    DotsReachHost(p, i);
    SampleKeepsMode(p, i);
    if IrSize(q.mode) > 0 {
      CameraSegment(t, q, s);
      var camera := q.mem.ir[CAMERA_DATA_AT..CAMERA_DATA_AT + 12];
      assert camera[..12] == camera;
    }
  }

  lemma SampleDots(n: Numbering, g: State, layout: Extension)
    requires Fits(n, g) && TenBitDots(g)
    ensures var i := SampleOf(n, g, layout);
            && i.x0 < 0x400 && i.y0 < 0x400 && i.x1 < 0x400 && i.y1 < 0x400
            && Val(i.x0) == g.dot0.x && Val(i.y0) == g.dot0.y && Val(i.x1) == g.dot1.x && Val(i.y1) == g.dot1.y
  {
    hide ExtensionData, WiimoteButtons, Word, Val;
    TenBitWord(g.dot0.x);
    TenBitWord(g.dot0.y);
    TenBitWord(g.dot1.x);
    TenBitWord(g.dot1.y);
  }

  /** The camera segment of a report is the head of the camera data. */
  lemma CameraSegment(t: Tables, q: Pad, s: seq<byte>)
    requires t.Valid() && Shaped(q.mem) && Decoded(t, q, s) && IrSize(q.mode) > 0
    ensures IrOffset(q.mode) + IrSize(q.mode) <= |s| && IrSize(q.mode) <= 12
    ensures s[IrOffset(q.mode)..IrOffset(q.mode) + IrSize(q.mode)] ==
            q.mem.ir[CAMERA_DATA_AT..CAMERA_DATA_AT + 12][..IrSize(q.mode)]
  {
    hide HostWord, HostX, HostY, HostZ, HostExt, IrOffset, AccSize, ExtSize, HasBtn, ReportSize;
  }

  lemma SampleKeepsMode(p: Pad, i: Input)
    requires Shaped(p.mem) && i.Sample? && ValidInput(i)
    ensures Sampled(p, i).mem.ir[CAMERA_MODE_AT] == p.mem.ir[CAMERA_MODE_AT]
  {
    hide CameraBytes;
  }

  lemma InvIsShaped(t: Tables, p: Pad)
    requires Inv(t, p)
    ensures t.Valid() && Shaped(p.mem)
  {
  }

  lemma DecodedShows(t: Tables, q: Pad, n: Numbering, g: State, layout: Extension, s: seq<byte>)
    requires t.Valid() && Shaped(q.mem) && Fits(n, g) && Decoded(t, q, s) && (layout == Nunchuk || layout == Classic)
    requires forall bit: word :: Hits(q.buttons, bit) <==> layout == Nunchuk && SomePressedAs(n, WiimoteBit, g.buttons, bit)
    requires g.acc.Some? ==> q.acc == MaskAcc(g.acc.value)
    requires TenBitDots(g) ==> ShowsDots(q, g, s)
    requires q.mem.ext[..EXT_DATA_SIZE] == ExtensionData(n, g, layout).value
    requires ExtensionShows(n, g, layout, ExtensionData(n, g, layout).value)
    ensures Shows(t, q, n, g, layout, s)
  {
    hide HostWord, HostX, HostY, HostZ, HostExt, ExtensionData, SomePressedAs, Hits, ExtensionShows, ShowsDots,
         TenBitDots;
    if g.acc.Some? {
      MaskedTwice(g.acc.value.y);
      MaskedTwice(g.acc.value.z);
    }
    if ExtSize(q.mode) > 0 {
      assert q.mem.ext[..ExtSize(q.mode)][..EXT_DATA_SIZE] == q.mem.ext[..EXT_DATA_SIZE];
    }
  }

  lemma MaskedTwice(w: word)
    ensures (w & 0x3FF) & 0x3FE == w & 0x3FE
  {
  }

  /** From the IR cursor, wherever axes or touches put it, to the host: the report shows the two dots
      of its position. */
  lemma CursorReachesHost(t: Tables, p: Pad, n: Numbering, g: State, layout: Extension, top: bool, x: int, y: int)
    requires Inv(t, p) && Fits(n, g) && p.mem.req.size == 0 && p.newExt == p.curExt
    requires layout == Nunchuk || layout == Classic
    requires InBox((x, y)) && (g.dot0, g.dot1) == DotsAt(top, x, y)
    requires var i := SampleOf(n, g, layout);
             ValidInput(i) ==> TickReadable(t, p, i) && Reporting(Sampled(p, i))
    ensures var i := SampleOf(n, g, layout);
            && Enabled(t, p, Ticked(i))
            && exists s :: Tick(t, p, i).1 == [DataReport(p.mode, s)] && ShowsDots(Sampled(p, i), g, s)
    ensures g.dot0.OnScreen() && g.dot1.OnScreen()
  {
    hide KeyOf, Tick, TickReadable, Sampled, Inv, Reporting, ShowsDots, ExtensionShows, DotsAt, SampleOf, ValidInput;
    DotsOnScreen(top, x, y);
    InvIsShaped(t, p);
    GamepadReachesHost(t, p, n, g, layout);
  }
}
