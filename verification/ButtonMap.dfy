/** Input mapping of source/button_map.c and include/button_map.h: buttons, extension formats, IR. */
module ButtonMap {
  import opened Bytes

  // ---------------------------------------------------------------- buttons

  /** A gamepad's button set is an unsigned number; button i is its bit i. */
  predicate Pressed(buttons: nat, i: nat) {
    if i == 0 then buttons % 2 == 1 else Pressed(buttons / 2, i - 1)
  }

  /** acc joined with the table entries of all pressed buttons. */
  function Mapped(acc: word, buttons: nat, table: seq<word>): word
    decreases |table|
  {
    if table == [] then acc
    else Mapped(if buttons % 2 == 1 then acc | table[0] else acc, buttons / 2, table[1..])
  }

  /** The loop of the three mappers: shift the button set, join the entries of pressed buttons. */
  method MapButtons(acc: word, buttons: nat, table: seq<word>) returns (mapped: word)
    ensures mapped == Mapped(acc, buttons, table)
  {
    mapped := acc;
    var rest := buttons;
    ghost var left := table;
    for i := 0 to |table|
      invariant left == table[i..] && Mapped(mapped, rest, left) == Mapped(acc, buttons, table)
    {
      left := left[1..];
      if rest % 2 == 1 {
        mapped := mapped | table[i];
      }
      rest := rest / 2;
    }
  }

  predicate Hits(w: word, bit: word) { w & bit != 0 }

  predicate PressedWith(buttons: nat, table: seq<word>, bit: word, i: nat) {
    i < |table| && Pressed(buttons, i) && Hits(table[i], bit)
  }

  /** A bit is reported exactly when some pressed gamepad button maps to it. */
  lemma {:induction false} MappedBit(acc: word, buttons: nat, table: seq<word>, bit: word)
    ensures Hits(Mapped(acc, buttons, table), bit) <==>
            Hits(acc, bit) || exists i :: PressedWith(buttons, table, bit, i)
    decreases |table|
  {
    if table != [] {
      var acc' := if buttons % 2 == 1 then acc | table[0] else acc;
      MappedBit(acc', buttons / 2, table[1..], bit);
      HitsAfterFirst(acc, buttons, table, bit, acc');
      MoreFromTail(buttons, table, bit);
      LessFromTail(buttons, table, bit);
    }
  }

  lemma HitsAfterFirst(acc: word, buttons: nat, table: seq<word>, bit: word, acc': word)
    requires table != [] && acc' == if buttons % 2 == 1 then acc | table[0] else acc
    ensures Hits(acc', bit) <==> Hits(acc, bit) || PressedWith(buttons, table, bit, 0)
  {
    if buttons % 2 == 1 {
      HitsJoined(acc, table[0], acc', bit);
    }
  }

  lemma HitsJoined(a: word, b: word, c: word, bit: word)
    requires c == a | b
    ensures Hits(c, bit) <==> Hits(a, bit) || Hits(b, bit)
  {
    OrBit(a, b, bit);
  }

  lemma OrBit(a: word, b: word, bit: word)
    ensures Hits(a | b, bit) <==> Hits(a, bit) || Hits(b, bit)
  {
    AndOr(a, b, bit);
    NonZeroOr(a & bit, b & bit);
  }

  lemma AndOr(a: word, b: word, bit: word)
    ensures (a | b) & bit == (a & bit) | (b & bit)
  {
  }

  lemma NonZeroOr(a: word, b: word)
    ensures a | b != 0 <==> a != 0 || b != 0
  {
  }

  lemma MoreFromTail(buttons: nat, table: seq<word>, bit: word)
    requires table != []
    ensures PressedWith(buttons, table, bit, 0) || (exists i :: PressedWith(buttons / 2, table[1..], bit, i)) ==>
              exists i :: PressedWith(buttons, table, bit, i)
  {
    if i: nat :| PressedWith(buttons / 2, table[1..], bit, i) {
      assert PressedWith(buttons, table, bit, i + 1);
    }
  }

  lemma LessFromTail(buttons: nat, table: seq<word>, bit: word)
    requires table != []
    ensures (exists i :: PressedWith(buttons, table, bit, i)) ==>
              PressedWith(buttons, table, bit, 0) || exists i :: PressedWith(buttons / 2, table[1..], bit, i)
  {
    if i: nat :| PressedWith(buttons, table, bit, i) {
      if i > 0 {
        assert PressedWith(buttons / 2, table[1..], bit, i - 1);
      }
    }
  }

  /** If no table entry has a bit in common with mask, no combination of buttons does. */
  lemma MappedStaysClear(buttons: nat, table: seq<word>, mask: word)
    requires forall i :: 0 <= i < |table| ==> !Hits(table[i], mask)
    ensures !Hits(Mapped(0, buttons, table), mask)
  {
    MappedBit(0, buttons, table, mask);
    NothingHits(mask);
  }

  lemma NothingHits(mask: word)
    ensures !Hits(0, mask)
  {
  }

  // ---------------------------------------------------------------- extension formats

  const NUNCHUK_BUTTON_Z: word := 0x01
  const NUNCHUK_BUTTON_C: word := 0x02
  const CLASSIC_BUTTON_FULL_R: word := 0x0200
  const CLASSIC_BUTTON_FULL_L: word := 0x2000
  const CLASSIC_BUTTON_ALL: word := 0xFEFF

  const EXT_DATA_SIZE := 6

  /** The upper eight of ten bits, and the lower two. */
  function Upper8(w: word): byte { ((w >> 2) & 0xFF) as byte }

  function Lower2(w: word): byte { (w & 3) as byte }

  /** Low bits of the acceleration and the two buttons, active low. */
  function NunchukLow(ax: byte, ay: byte, az: byte, c: bool, z: bool): byte {
    (az << 6) | (ay << 4) | (ax << 2) | (if c then 0 else 2) | (if z then 0 else 1)
  }

  /** Six bytes: stick, acceleration, and a byte with the acceleration's low bits and the two
      active-low buttons; bit fields are laid out from the high bit down. */
  function NunchukFormat(buttons: word, jx: byte, jy: byte, ax: word, ay: word, az: word): (s: seq<byte>)
    ensures |s| == EXT_DATA_SIZE
  {
    [jx, jy, Upper8(ax), Upper8(ay), Upper8(az),
     NunchukLow(Lower2(ax), Lower2(ay), Lower2(az), Hits(buttons, NUNCHUK_BUTTON_C), Hits(buttons, NUNCHUK_BUTTON_Z))]
  }

  // The first four bytes of a Classic Controller: sticks at reduced resolution, and triggers.

  function ClassicByte0(r: byte, l: byte): byte { (((r >> 3) & 3) << 6) | (l & 0x3F) }

  function ClassicByte1(r: byte, m: byte): byte { (((r >> 1) & 3) << 6) | (m & 0x3F) }

  function ClassicByte2(r: byte, lt: byte, q: byte): byte { ((r & 1) << 7) | (((lt >> 3) & 3) << 5) | (q & 0x1F) }

  function ClassicByte3(lt: byte, rt: byte): byte { ((lt & 7) << 5) | (rt & 0x1F) }

  function Trigger(pressed: bool): byte { if pressed then 31 else 0 }

  function ActiveLow(buttons: word): word { !buttons & CLASSIC_BUTTON_ALL }

  /** Six bytes: four sticks at reduced resolution, the triggers, and active-low buttons. */
  function ClassicFormat(buttons: word, lx: byte, ly: byte, rx: byte, ry: byte): (s: seq<byte>)
    ensures |s| == EXT_DATA_SIZE
  {
    var lt, rt := Trigger(Hits(buttons, CLASSIC_BUTTON_FULL_L)), Trigger(Hits(buttons, CLASSIC_BUTTON_FULL_R));
    [ClassicByte0(rx >> 3, lx >> 2), ClassicByte1(rx >> 3, ly >> 2), ClassicByte2(rx >> 3, lt, ry >> 3),
     ClassicByte3(lt, rt), High(ActiveLow(buttons)), Low(ActiveLow(buttons))]
  }

  // How a host unpacks them.

  function Field2(b: byte, shift: byte): byte
    requires shift <= 8
  {
    (b >> shift) & 3
  }

  function TenBits(upper: byte, lower: byte): word { ((upper as word) << 2) | (lower as word) }

  datatype NunchukState = NunchukState(jx: byte, jy: byte, ax: word, ay: word, az: word, c: bool, z: bool)

  function NunchukRead(s: seq<byte>): NunchukState
    requires |s| == EXT_DATA_SIZE
  {
    NunchukState(s[0], s[1], TenBits(s[2], Field2(s[5], 2)), TenBits(s[3], Field2(s[5], 4)), TenBits(s[4], Field2(s[5], 6)),
                 s[5] & 2 == 0, s[5] & 1 == 0)
  }

  lemma NunchukLowFields(ax: byte, ay: byte, az: byte, c: bool, z: bool)
    requires ax < 4 && ay < 4 && az < 4
    ensures var b := NunchukLow(ax, ay, az, c, z);
            && Field2(b, 2) == ax && Field2(b, 4) == ay && Field2(b, 6) == az && (b & 2 == 0 <==> c) && (b & 1 == 0 <==> z)
  {
  }

  lemma UpperAndLower(w: word)
    ensures TenBits(Upper8(w), Lower2(w)) == w & 0x3FF && Lower2(w) < 4
  {
  }

  /** Whatever goes into a Nunchuk's six bytes comes out of them. */
  lemma NunchukDecodes(buttons: word, jx: byte, jy: byte, ax: word, ay: word, az: word)
    ensures NunchukRead(NunchukFormat(buttons, jx, jy, ax, ay, az)) ==
            NunchukState(jx, jy, ax & 0x3FF, ay & 0x3FF, az & 0x3FF,
                         Hits(buttons, NUNCHUK_BUTTON_C), Hits(buttons, NUNCHUK_BUTTON_Z))
  {
    hide Upper8, Lower2, NunchukLow, Field2, TenBits, Hits;
    UpperAndLower(ax);
    UpperAndLower(ay);
    UpperAndLower(az);
    NunchukLowFields(Lower2(ax), Lower2(ay), Lower2(az), Hits(buttons, NUNCHUK_BUTTON_C), Hits(buttons, NUNCHUK_BUTTON_Z));
  }

  datatype ClassicState = ClassicState(lx: byte, ly: byte, rx: byte, ry: byte, lt: byte, rt: byte, buttons: word)

  function ReadRx(b0: byte, b1: byte, b2: byte): byte { ((b0 >> 6) << 3) | ((b1 >> 6) << 1) | (b2 >> 7) }

  function ReadLt(b2: byte, b3: byte): byte { (((b2 >> 5) & 3) << 3) | (b3 >> 5) }

  function ReadButtons(high: byte, low: byte): word { !(((high as word) << 8) | (low as word)) & CLASSIC_BUTTON_ALL }

  function ClassicRead(s: seq<byte>): ClassicState
    requires |s| == EXT_DATA_SIZE
  {
    ClassicState(s[0] & 0x3F, s[1] & 0x3F, ReadRx(s[0], s[1], s[2]), s[2] & 0x1F, ReadLt(s[2], s[3]), s[3] & 0x1F,
                 ReadButtons(s[4], s[5]))
  }

  lemma SticksUnpack(l: byte, m: byte, r: byte, q: byte, lt: byte, rt: byte)
    requires l < 64 && m < 64 && r < 32 && q < 32 && lt < 32 && rt < 32
    ensures var (b0, b1, b2, b3) := (ClassicByte0(r, l), ClassicByte1(r, m), ClassicByte2(r, lt, q), ClassicByte3(lt, rt));
            && b0 & 0x3F == l && b1 & 0x3F == m && b2 & 0x1F == q && b3 & 0x1F == rt
            && ReadRx(b0, b1, b2) == r && ReadLt(b2, b3) == lt
  {
  }

  lemma SmallSticks(b: byte, pressed: bool)
    ensures b >> 2 < 64 && b >> 3 < 32 && Trigger(pressed) < 32
  {
  }

  lemma ButtonsUnpack(buttons: word)
    ensures ReadButtons(High(ActiveLow(buttons)), Low(ActiveLow(buttons))) == buttons & CLASSIC_BUTTON_ALL
  {
  }

  /** The Classic Controller's six bytes unpack to the sticks at their resolution, the triggers as
      fully pressed or not at all, and the buttons. */
  lemma ClassicDecodes(buttons: word, lx: byte, ly: byte, rx: byte, ry: byte)
    ensures ClassicRead(ClassicFormat(buttons, lx, ly, rx, ry)) ==
            ClassicState(lx >> 2, ly >> 2, rx >> 3, ry >> 3,
                         Trigger(Hits(buttons, CLASSIC_BUTTON_FULL_L)), Trigger(Hits(buttons, CLASSIC_BUTTON_FULL_R)),
                         buttons & CLASSIC_BUTTON_ALL)
  {
    hide ClassicByte0, ClassicByte1, ClassicByte2, ClassicByte3, Trigger, ActiveLow, High, Low, ReadRx, ReadLt,
         ReadButtons, Hits;
    var l, r := Hits(buttons, CLASSIC_BUTTON_FULL_L), Hits(buttons, CLASSIC_BUTTON_FULL_R);
    SmallSticks(lx, l);
    SmallSticks(ly, r);
    SmallSticks(rx, l);
    SmallSticks(ry, r);
    SticksUnpack(lx >> 2, ly >> 2, rx >> 3, ry >> 3, Trigger(l), Trigger(r));
    ButtonsUnpack(buttons);
  }

  // ---------------------------------------------------------------- IR pointer

  const IR_LOW_X := 0x7F
  const IR_LOW_Y := 0x5D
  const IR_HIGH_X := 0x380
  const IR_HIGH_Y := 0x2A2
  const IR_CENTER_X := (IR_HIGH_X + IR_LOW_X) / 2
  const IR_CENTER_Y := (IR_HIGH_Y + IR_LOW_Y) / 2
  const IR_HORIZONTAL_OFFSET := 64
  const IR_VERTICAL_OFFSET := 110
  const MIN_X := IR_LOW_X + IR_HORIZONTAL_OFFSET
  const MAX_X := IR_HIGH_X - IR_HORIZONTAL_OFFSET
  const MIN_Y := IR_LOW_Y + IR_VERTICAL_OFFSET
  const MAX_Y := IR_HIGH_Y - IR_VERTICAL_OFFSET

  datatype Dot = Dot(x: int, y: int)
  {
    /** The rectangle the camera reports. */
    predicate OnScreen() {
      IR_LOW_X <= x <= IR_HIGH_X && IR_LOW_Y <= y <= IR_HIGH_Y
    }
  }

  datatype IrMode = NoIr | Direct | Relative | Absolute

  /** Which pointer axis a gamepad axis drives. */
  datatype IrAxis = NoAxis | AxisX | AxisY

  /** An unsigned 16-bit variable after an assignment. */
  function U16(n: int): (r: int)
    ensures 0 <= r < 0x1_0000
  {
    n % 0x1_0000
  }

  /** C division of a signed value by 16 rounds toward zero. */
  function Sixteenth(val: int): int {
    if val >= 0 then val / 16 else -((-val) / 16)
  }

  function Clamp(n: int, lo: int, hi: int): (r: int)
    requires lo <= hi
    ensures lo <= r <= hi
  {
    if n < lo then lo else if n > hi then hi else n
  }

  function MoveAxis(mode: IrMode, center: int, position: int, val: int): int {
    match mode
    case Relative => U16(position + Sixteenth(val))
    case Absolute => U16(center + val)
    case _ => position
  }

  /** Positions after the first n gamepad axes. */
  function Moved(mode: IrMode, pos: (int, int), axes: seq<int>, axisMap: seq<IrAxis>, n: nat): (int, int)
    requires n <= |axes| == |axisMap|
  {
    if n == 0 then pos
    else
      var p := Moved(mode, pos, axes, axisMap, n - 1);
      match axisMap[n - 1]
      case NoAxis => p
      case AxisX => (MoveAxis(mode, IR_CENTER_X, p.0, axes[n - 1]), p.1)
      case AxisY => (p.0, MoveAxis(mode, IR_CENTER_Y, p.1, axes[n - 1]))
  }

  function Clamped(p: (int, int)): (int, int) {
    (Clamp(p.0, MIN_X, MAX_X), Clamp(p.1, MIN_Y, MAX_Y))
  }

  predicate InBox(p: (int, int)) {
    MIN_X <= p.0 <= MAX_X && MIN_Y <= p.1 <= MAX_Y
  }

  /** map_ir_dot: two dots beside the pointer, above or below it depending on the sensor bar. */
  function DotsAt(top: bool, x: int, y: int): (Dot, Dot) {
    var vert := if top then IR_VERTICAL_OFFSET else -IR_VERTICAL_OFFSET;
    (Dot(U16(MIN_X + (MAX_X - x) - IR_HORIZONTAL_OFFSET), U16(y + vert)),
     Dot(U16(MIN_X + (MAX_X - x) + IR_HORIZONTAL_OFFSET), U16(y + vert)))
  }

  /** A pointer in the box shows two dots on screen, side by side, for either sensor bar side. */
  lemma DotsOnScreen(top: bool, x: int, y: int)
    requires InBox((x, y))
    ensures DotsAt(top, x, y).0.OnScreen() && DotsAt(top, x, y).1.OnScreen()
    ensures DotsAt(top, x, y).1.x - DotsAt(top, x, y).0.x == 2 * IR_HORIZONTAL_OFFSET
    ensures DotsAt(top, x, y).1.y == DotsAt(top, x, y).0.y
  {
  }

  /** The host takes the middle between the dots, mirrored, and the sensor bar's place: that is the
      pointer. */
  lemma PointerIsRecovered(top: bool, x: int, y: int)
    requires InBox((x, y))
    ensures var (d0, d1) := DotsAt(top, x, y);
            && d0.x < d1.x && 0x3FF - (d0.x + d1.x) / 2 == x
            && y == d0.y + if top then -110 else 110
  {
  }

  // Which way a stick moves the pointer.

  lemma SixteenthRounds(val: int)
    ensures val >= 0 ==> 0 <= 16 * Sixteenth(val) <= val < 16 * Sixteenth(val) + 16
    ensures val <= 0 ==> 16 * Sixteenth(val) - 16 < val <= 16 * Sixteenth(val) <= 0
  {
  }

  /** A stick moves the pointer the way it is pushed, by a sixteenth of its value and up to the edge,
      exactly if the 16-bit position does not fall below zero. If it does, the pointer ends at the
      opposite edge. */
  lemma StickMoves(position: int, val: int, lo: int, hi: int, center: int)
    requires 0 < lo <= position <= hi < 0x400 && -0x8000 <= val < 0x8000
    ensures var p := Clamp(MoveAxis(Relative, center, position, val), lo, hi);
            && (val > -16 * (position + 1) ==> p == Clamp(position + Sixteenth(val), lo, hi))
            && (val <= -16 * (position + 1) ==> p == hi)
            && (val >= 0 ==> p >= position)
            && (val <= 0 ==> (p <= position <==> val > -16 * (position + 1) || position == hi))
  {
    SixteenthRounds(val);
  }

  /** In absolute mode likewise, counted from the centre. */
  lemma StickPoints(position: int, val: int, lo: int, hi: int, center: int)
    requires 0 < lo <= center <= hi < 0x400 && -0x8000 <= val < 0x8000
    ensures var p := Clamp(MoveAxis(Absolute, center, position, val), lo, hi);
            && (val >= -center ==> p == Clamp(center + val, lo, hi))
            && (val < -center ==> p == hi)
  {
  }

  /** Gamepad axis k is the only one that drives pointer axis a. */
  predicate Drives(axisMap: seq<IrAxis>, a: IrAxis, k: nat) {
    k < |axisMap| && axisMap[k] == a && forall j :: 0 <= j < |axisMap| && j != k ==> axisMap[j] != a
  }

  /** A coordinate follows the one gamepad axis that is mapped to it, from the centre (511, 383) in
      absolute mode, and stands still if there is none. */
  lemma {:induction false} AxisDrives(mode: IrMode, pos: (int, int), axes: seq<int>, axisMap: seq<IrAxis>, k: nat, n: nat)
    requires n <= |axes| == |axisMap| && k < |axes|
    ensures Drives(axisMap, AxisX, k) ==>
              Moved(mode, pos, axes, axisMap, n).0 == if k < n then MoveAxis(mode, 511, pos.0, axes[k]) else pos.0
    ensures Drives(axisMap, AxisY, k) ==>
              Moved(mode, pos, axes, axisMap, n).1 == if k < n then MoveAxis(mode, 383, pos.1, axes[k]) else pos.1
    ensures AxisX !in axisMap || mode == NoIr || mode == Direct ==> Moved(mode, pos, axes, axisMap, n).0 == pos.0
    ensures AxisY !in axisMap || mode == NoIr || mode == Direct ==> Moved(mode, pos, axes, axisMap, n).1 == pos.1
  {
    if n > 0 {
      AxisDrives(mode, pos, axes, axisMap, k, n - 1);
    }
  }

  /** So holding a stick fully to the left takes the pointer to the right edge, from everywhere. */
  lemma FullLeftGoesRight(position: (int, int))
    requires InBox(position)
    ensures Clamped(Moved(Relative, position, [-0x8000], [AxisX], 1)) == (MAX_X, position.1)
  {
    AxisDrives(Relative, position, [-0x8000], [AxisX], 0, 1);
    StickMoves(position.0, -0x8000, MIN_X, MAX_X, 511);
  }

  /** The pointer state of one gamepad. */
  class IrPointer {
    var x: int
    var y: int

    predicate Valid()
      reads this
    {
      0 <= x < 0x1_0000 && 0 <= y < 0x1_0000
    }

    constructor ()
      ensures (x, y) == (IR_CENTER_X, IR_CENTER_Y)
    {
      x, y := IR_CENTER_X, IR_CENTER_Y;
    }

    /** bm_map_ir_analog_axis: whatever the axes say, and wherever the 16-bit positions wrap to,
        the pointer ends in the box and both dots are on screen. */
    method MapAnalogAxes(mode: IrMode, top: bool, axes: seq<int>, axisMap: seq<IrAxis>)
      returns (d0: Dot, d1: Dot)
      requires Valid() && |axes| == |axisMap|
      modifies this
      ensures Valid() && InBox((x, y))
      ensures (x, y) == Clamped(Moved(mode, old((x, y)), axes, axisMap, |axes|))
      ensures (d0, d1) == DotsAt(top, x, MIN_Y + (MAX_Y - y))
      ensures d0.OnScreen() && d1.OnScreen()
    {
      MoveAxes(mode, axes, axisMap);
      ClampPosition();
      d0, d1 := MapIrDot(top, x, MIN_Y + (MAX_Y - y));
      DotsOnScreen(top, x, MIN_Y + (MAX_Y - y));
    }

    method MoveAxes(mode: IrMode, axes: seq<int>, axisMap: seq<IrAxis>)
      requires Valid() && |axes| == |axisMap|
      modifies this
      ensures Valid() && (x, y) == Moved(mode, old((x, y)), axes, axisMap, |axes|)
    {
      for i := 0 to |axes|
        invariant Valid()
        invariant (x, y) == Moved(mode, old((x, y)), axes, axisMap, i)
      {
        if axisMap[i] == AxisX {
          if mode == Relative {
            x := U16(x + Sixteenth(axes[i]));
          } else if mode == Absolute {
            x := U16(IR_CENTER_X + axes[i]);
          }
        } else if axisMap[i] == AxisY {
          if mode == Relative {
            y := U16(y + Sixteenth(axes[i]));
          } else if mode == Absolute {
            y := U16(IR_CENTER_Y + axes[i]);
          }
        }
      }
    }

    method ClampPosition()
      requires Valid()
      modifies this
      ensures Valid() && InBox((x, y)) && (x, y) == Clamped(old((x, y)))
    {
      if x < MIN_X {
        x := MIN_X;
      } else if x > MAX_X {
        x := MAX_X;
      }
      if y < MIN_Y {
        y := MIN_Y;
      } else if y > MAX_Y {
        y := MAX_Y;
      }
    }

    static method MapIrDot(top: bool, dx: int, dy: int) returns (d0: Dot, d1: Dot)
      ensures (d0, d1) == DotsAt(top, dx, dy)
    {
      var vert := if top then IR_VERTICAL_OFFSET else -IR_VERTICAL_OFFSET;
      d0 := Dot(U16((MIN_X + (MAX_X - dx)) - IR_HORIZONTAL_OFFSET), U16(dy + vert));
      d1 := Dot(U16((MIN_X + (MAX_X - dx)) + IR_HORIZONTAL_OFFSET), U16(dy + vert));
    }

    /** bm_map_ir_direct, with a touch pad of resolution res: no touch hides the dots, and a touch
        inside the pad puts them on the screen. */
    static method MapDirect(top: bool, res: int, tx: int, ty: int) returns (dots: Option<(Dot, Dot)>)
      requires res > 0
      ensures dots.None? <==> tx < 0
      ensures dots.Some? ==> dots.value == DotsAt(top, TouchX(tx, res), TouchY(ty, res))
      ensures 0 <= tx <= res && 0 <= ty <= res ==>
                && dots.value.0.OnScreen() && dots.value.1.OnScreen()
                && TouchX(tx, res) == MIN_X + tx * (MAX_X - MIN_X) / res
                && TouchY(ty, res) == MIN_Y + ty * (MAX_Y - MIN_Y) / res
    {
      if tx < 0 {
        return None;
      }
      var d0, d1 := MapIrDot(top, TouchX(tx, res), TouchY(ty, res));
      if tx <= res && 0 <= ty <= res {
        TouchInBox(tx, ty, res);
        DotsOnScreen(top, TouchX(tx, res), TouchY(ty, res));
      }
      return Some((d0, d1));
    }
  }

  /** C division rounds toward zero. */
  function Quotient(n: int, d: int): int
    requires d > 0
  {
    if n >= 0 then n / d else -((-n) / d)
  }

  function TouchX(tx: int, res: int): int
    requires res > 0
  {
    U16(MIN_X + Quotient(tx * (MAX_X - MIN_X), res))
  }

  function TouchY(ty: int, res: int): int
    requires res > 0
  {
    U16(MIN_Y + Quotient(ty * (MAX_Y - MIN_Y), res))
  }

  lemma TouchInBox(tx: int, ty: int, res: int)
    requires res > 0 && 0 <= tx <= res && 0 <= ty <= res
    ensures InBox((TouchX(tx, res), TouchY(ty, res)))
    ensures TouchX(tx, res) == MIN_X + tx * (MAX_X - MIN_X) / res
    ensures TouchY(ty, res) == MIN_Y + ty * (MAX_Y - MIN_Y) / res
  {
    ScaleInRange(tx, MAX_X - MIN_X, res);
    ScaleInRange(ty, MAX_Y - MIN_Y, res);
    MulMonotone(0, tx, MAX_X - MIN_X);
    MulMonotone(0, ty, MAX_Y - MIN_Y);
  }

  lemma ScaleInRange(t: int, span: int, res: int)
    requires 0 <= t <= res && res > 0 && span >= 0
    ensures 0 <= t * span / res <= span
  {
    MulMonotone(t, res, span);
    DivBound(t * span, span, res);
  }

  lemma MulMonotone(a: int, b: int, c: int)
    requires a <= b && c >= 0
    ensures a * c <= b * c
  {
  }

  lemma DivBound(a: int, b: int, res: int)
    requires 0 <= a <= res * b && res > 0
    ensures 0 <= a / res <= b
  {
    if a / res > b {
      MulMonotone(b + 1, a / res, res);
    }
  }

  // ---------------------------------------------------------------- IR camera packing

  const IR_MODE_BASIC: byte := 1
  const IR_MODE_EXTENDED: byte := 3
  const IR_MODE_FULL: byte := 5
  const CAMERA_DATA_BYTES := 36
  const IR_DOT_SIZE: word := 4

  /** The camera bytes of two dots, as far as the mode defines them; the rest stays as it was. */
  function CameraBytes(mode: byte, x0: word, y0: word, x1: word, y1: word): (s: seq<byte>)
    ensures |s| <= CAMERA_DATA_BYTES
    ensures mode == IR_MODE_BASIC ==> |s| == 10
    ensures mode == IR_MODE_EXTENDED ==> |s| == 12
    ensures mode != IR_MODE_BASIC && mode != IR_MODE_EXTENDED ==> |s| == CAMERA_DATA_BYTES
  {
    if mode == IR_MODE_BASIC then
      [Low(x0), Low(y0), MixBasic(x0, y0, x1, y1), Low(x1), Low(y1)] + Fill(5, 0xFF)
    else if mode == IR_MODE_EXTENDED then
      [Low(x0), Low(y0), MixDot(x0, y0), Low(x1), Low(y1), MixDot(x1, y1), 0xFF, 0xFF, 0xF0, 0xFF, 0xFF, 0xF0]
    else if mode == IR_MODE_FULL then
      [Low(x0), Low(y0), MixDot(x0, y0)] + FULL_DOT_TAIL + [Low(x1), Low(y1), MixDot(x1, y1)] + FULL_DOT_TAIL
      + Fill(18, 0xFF)
    else Fill(CAMERA_DATA_BYTES, 0xFF)
  }

  const FULL_DOT_TAIL: seq<byte> := [0, 0x7F, 0, 0x7F, 0, 0xFF]

  function MixBasic(x0: word, y0: word, x1: word, y1: word): byte {
    ((((y0 >> 8) & 3) << 6) | (((x0 >> 8) & 3) << 4) | (((y1 >> 8) & 3) << 2) | ((x1 >> 8) & 3)) as byte
  }

  function MixDot(x: word, y: word): byte {
    (((y & 0x300) >> 2) | ((x & 0x300) >> 4) | IR_DOT_SIZE) as byte
  }

  // How a host unpacks them.

  function BasicDots(s: seq<byte>): ((word, word), (word, word))
    requires |s| >= 5
  {
    var m := s[2] as word;
    (((s[0] as word) | ((m & 0x30) << 4), (s[1] as word) | ((m & 0xC0) << 2)),
     ((s[3] as word) | ((m & 0x03) << 8), (s[4] as word) | ((m & 0x0C) << 6)))
  }

  function ExtendedDot(s: seq<byte>, at: nat): (word, word)
    requires at + 3 <= |s|
  {
    var m := s[at + 2] as word;
    ((s[at] as word) | ((m & 0x30) << 4), (s[at + 1] as word) | ((m & 0xC0) << 2))
  }

  lemma UnmixBasic(x0: word, y0: word, x1: word, y1: word)
    requires x0 < 0x400 && y0 < 0x400 && x1 < 0x400 && y1 < 0x400
    ensures var m := MixBasic(x0, y0, x1, y1) as word;
            && (Low(x0) as word) | ((m & 0x30) << 4) == x0 && (Low(y0) as word) | ((m & 0xC0) << 2) == y0
            && (Low(x1) as word) | ((m & 0x03) << 8) == x1 && (Low(y1) as word) | ((m & 0x0C) << 6) == y1
  {
  }

  lemma UnmixDot(x: word, y: word)
    requires x < 0x400 && y < 0x400
    ensures var m := MixDot(x, y) as word;
            (Low(x) as word) | ((m & 0x30) << 4) == x && (Low(y) as word) | ((m & 0xC0) << 2) == y
    ensures MixDot(x, y) & 0xF == 4
  {
  }

  /** Basic, extended and full packing all give the host exactly the ten-bit coordinates. */
  lemma CameraBytesDecode(x0: word, y0: word, x1: word, y1: word)
    requires x0 < 0x400 && y0 < 0x400 && x1 < 0x400 && y1 < 0x400
    ensures BasicDots(CameraBytes(IR_MODE_BASIC, x0, y0, x1, y1)) == ((x0, y0), (x1, y1))
    ensures ExtendedDot(CameraBytes(IR_MODE_EXTENDED, x0, y0, x1, y1), 0) == (x0, y0)
    ensures ExtendedDot(CameraBytes(IR_MODE_EXTENDED, x0, y0, x1, y1), 3) == (x1, y1)
    ensures ExtendedDot(CameraBytes(IR_MODE_FULL, x0, y0, x1, y1), 0) == (x0, y0)
    ensures ExtendedDot(CameraBytes(IR_MODE_FULL, x0, y0, x1, y1), 9) == (x1, y1)
  {
    hide BasicDots, ExtendedDot;
    BasicDecodes(CameraBytes(IR_MODE_BASIC, x0, y0, x1, y1), x0, y0, x1, y1);
    ExtendedDecodes(CameraBytes(IR_MODE_EXTENDED, x0, y0, x1, y1), 0, x0, y0);
    ExtendedDecodes(CameraBytes(IR_MODE_EXTENDED, x0, y0, x1, y1), 3, x1, y1);
    ExtendedDecodes(CameraBytes(IR_MODE_FULL, x0, y0, x1, y1), 0, x0, y0);
    ExtendedDecodes(CameraBytes(IR_MODE_FULL, x0, y0, x1, y1), 9, x1, y1);
  }

  /** Only two of the camera's four dots are ever there: the others read as (1023, 1023), and in any other
      mode there is none. */
  lemma OtherDotsAbsent(mode: byte, x0: word, y0: word, x1: word, y1: word)
    ensures var s := CameraBytes(mode, x0, y0, x1, y1);
            && |s| == (if mode == 1 then 10 else if mode == 3 then 12 else 36)
            && (mode == 1 ==> BasicDots(s[5..]) == ((0x3FF, 0x3FF), (0x3FF, 0x3FF)))
            && (mode == 3 ==> ExtendedDot(s, 6) == ExtendedDot(s, 9) == (0x3FF, 0x3FF))
            && (mode == 5 ==> ExtendedDot(s, 18) == ExtendedDot(s, 27) == (0x3FF, 0x3FF))
            && (mode != 1 && mode != 3 && mode != 5 ==> forall k :: 0 <= k < 36 ==> s[k] == 0xFF)
  {
    hide MixBasic, MixDot, Low;
    AbsentDot();
    var s := CameraBytes(mode, x0, y0, x1, y1);
    if mode == 1 {
      assert s[5..] == Fill(5, 0xFF);
    }
  }

  lemma AbsentDot()
    ensures forall s: seq<byte>, at: nat :: at + 3 <= |s| && s[at] == s[at + 1] == 0xFF && (s[at + 2] == 0xFF || s[at + 2] == 0xF0) ==>
              ExtendedDot(s, at) == (0x3FF, 0x3FF)
    ensures forall s: seq<byte> :: |s| == 5 && s[0] == s[1] == s[2] == s[3] == s[4] == 0xFF ==>
              BasicDots(s) == ((0x3FF, 0x3FF), (0x3FF, 0x3FF))
  {
  }

  lemma BasicDecodes(s: seq<byte>, x0: word, y0: word, x1: word, y1: word)
    requires x0 < 0x400 && y0 < 0x400 && x1 < 0x400 && y1 < 0x400
    requires |s| >= 5 && s[0] == Low(x0) && s[1] == Low(y0) && s[2] == MixBasic(x0, y0, x1, y1)
    requires s[3] == Low(x1) && s[4] == Low(y1)
    ensures BasicDots(s) == ((x0, y0), (x1, y1))
  {
    UnmixBasic(x0, y0, x1, y1);
  }

  lemma ExtendedDecodes(s: seq<byte>, at: nat, x: word, y: word)
    requires x < 0x400 && y < 0x400
    requires at + 3 <= |s| && s[at] == Low(x) && s[at + 1] == Low(y) && s[at + 2] == MixDot(x, y)
    ensures ExtendedDot(s, at) == (x, y)
  {
    UnmixDot(x, y);
  }

  lemma TenBitWord(n: nat)
    requires n < 0x400
    ensures Word(n) < 0x400 && Val(Word(n)) == n
  {
    var w := Word(n);
    SmallHigh(High(w));
    HighBound(w);
  }

  lemma SmallHigh(b: byte)
    requires (b as nat) < 4
    ensures b < 4
  {
  }

  lemma HighBound(w: word)
    requires High(w) < 4
    ensures w < 0x400
  {
  }

  /** The camera's bytes for a pointer in the box. */
  function PointerBytes(mode: byte, top: bool, x: int, y: int): (s: seq<byte>)
    requires InBox((x, y))
    ensures |s| == if mode == IR_MODE_BASIC then 10 else if mode == IR_MODE_EXTENDED then 12 else CAMERA_DATA_BYTES
  {
    var (d0, d1) := DotsAt(top, x, y);
    CameraBytes(mode, Word(d0.x), Word(d0.y), Word(d1.x), Word(d1.y))
  }

  /** The host's coordinates are the dot's. */
  predicate IsDot(h: (word, word), d: Dot) { Val(h.0) == d.x && Val(h.1) == d.y }

  /** From pointer to host: what the host decodes is where the dots are, in every packing. */
  lemma PointerReachesHost(top: bool, x: int, y: int)
    requires InBox((x, y))
    ensures var (s, d) := (PointerBytes(IR_MODE_BASIC, top, x, y), DotsAt(top, x, y));
            IsDot(BasicDots(s).0, d.0) && IsDot(BasicDots(s).1, d.1)
    ensures var (s, d) := (PointerBytes(IR_MODE_EXTENDED, top, x, y), DotsAt(top, x, y));
            IsDot(ExtendedDot(s, 0), d.0) && IsDot(ExtendedDot(s, 3), d.1)
    ensures var (s, d) := (PointerBytes(IR_MODE_FULL, top, x, y), DotsAt(top, x, y));
            IsDot(ExtendedDot(s, 0), d.0) && IsDot(ExtendedDot(s, 9), d.1)
  {
    hide BasicDots, ExtendedDot, CameraBytes, DotsAt, Val, Word;
    DotsOnScreen(top, x, y);
    var (d0, d1) := DotsAt(top, x, y);
    TenBitWord(d0.x);
    TenBitWord(d0.y);
    TenBitWord(d1.x);
    TenBitWord(d1.y);
    CameraBytesDecode(Word(d0.x), Word(d0.y), Word(d1.x), Word(d1.y));
  }
}
