/** Report layouts of include/wiimote.h, and how a host reads them back. */
module Reports {
  import opened Bytes

  const REPORT_DISABLED: byte := 0x00
  const BTN: byte := 0x30
  const BTN_ACC: byte := 0x31
  const BTN_EXP8: byte := 0x32
  const BTN_ACC_IR: byte := 0x33
  const BTN_EXP19: byte := 0x34
  const BTN_ACC_EXP: byte := 0x35
  const BTN_IR_EXP: byte := 0x36
  const BTN_ACC_IR_EXP: byte := 0x37
  const EXP21: byte := 0x3d

  const CONTROLLER_DATA_BYTES := 21

  /** Bits of the button word that carry acceleration; no button uses them. */
  const ACC_BITS: word := 0x6060

  predicate HasBtn(id: byte) { id != EXP21 }

  function AccSize(id: byte): nat {
    if id == BTN_ACC || id == BTN_ACC_IR || id == BTN_ACC_EXP || id == BTN_ACC_IR_EXP then 3 else 0
  }

  function AccOffset(id: byte): nat {
    if id == BTN_ACC || id == BTN_ACC_IR || id == BTN_ACC_EXP || id == BTN_ACC_IR_EXP then 2 else 0
  }

  function ExtSize(id: byte): nat {
    if id == BTN_EXP8 then 8
    else if id == BTN_EXP19 then 19
    else if id == BTN_ACC_EXP then 16
    else if id == BTN_IR_EXP then 9
    else if id == BTN_ACC_IR_EXP then 6
    else if id == EXP21 then 21
    else 0
  }

  function ExtOffset(id: byte): nat {
    if id == BTN_EXP8 || id == BTN_EXP19 then 2
    else if id == BTN_ACC_EXP then 5
    else if id == BTN_IR_EXP then 12
    else if id == BTN_ACC_IR_EXP then 15
    else 0
  }

  function IrSize(id: byte): nat {
    if id == BTN_ACC_IR then 12
    else if id == BTN_IR_EXP || id == BTN_ACC_IR_EXP then 10
    else 0
  }

  function IrOffset(id: byte): nat {
    if id == BTN_ACC_IR || id == BTN_ACC_IR_EXP then 5
    else if id == BTN_IR_EXP then 2
    else 0
  }

  function BtnSize(id: byte): nat { if HasBtn(id) then 2 else 0 }

  function ReportSize(id: byte): nat {
    BtnSize(id) + AccSize(id) + ExtSize(id) + IrSize(id)
  }

  /** For every report id the segments follow each other without gap or overlap: buttons,
      acceleration, IR, extension; and they fit the 21-byte buffer. */
  lemma SegmentsTile(id: byte)
    ensures AccSize(id) > 0 ==> AccOffset(id) == BtnSize(id)
    ensures IrSize(id) > 0 ==> IrOffset(id) == BtnSize(id) + AccSize(id)
    ensures ExtSize(id) > 0 ==> ExtOffset(id) == BtnSize(id) + AccSize(id) + IrSize(id)
    ensures ReportSize(id) <= CONTROLLER_DATA_BYTES
  {
  }

  // ---------------------------------------------------------------- buttons and acceleration

  datatype Acc = Acc(x: word, y: word, z: word)
  {
    predicate TenBit() { x < 0x400 && y < 0x400 && z < 0x400 }
  }

  /** Two low bits of x and one of y and of z travel in the button word. */
  function ButtonWord(buttons: word, acc: Acc): word {
    buttons | ((acc.x & 3) << 13) | ((acc.y & 2) << 4) | ((acc.z & 2) << 5)
  }

  /** The console is big-endian, so the word is laid out high byte first. */
  function ButtonBytes(w: word): (s: seq<byte>)
    ensures |s| == 2
  {
    [High(w), Low(w)]
  }

  function AccBytes(acc: Acc): (s: seq<byte>)
    ensures |s| == 3
  {
    [((acc.x >> 2) & 0xFF) as byte, ((acc.y >> 2) & 0xFF) as byte, ((acc.z >> 2) & 0xFF) as byte]
  }

  /** The bytes of one data report, given the (possibly encrypted) extension bytes. */
  function Payload(id: byte, buttons: word, acc: Acc, ir: seq<byte>, ext: seq<byte>): (s: seq<byte>)
    requires |ir| == IrSize(id) && |ext| == ExtSize(id)
    ensures |s| == ReportSize(id)
  {
    (if HasBtn(id) then ButtonBytes(if AccSize(id) > 0 then ButtonWord(buttons, acc) else buttons) else [])
    + (if AccSize(id) > 0 then AccBytes(acc) else []) + ir + ext
  }

  // What a host reads out of a report.

  function HostWord(s: seq<byte>): word
    requires |s| >= 2
  {
    ((s[0] as word) << 8) | (s[1] as word)
  }

  function HostX(s: seq<byte>): word
    requires |s| >= 5
  {
    ((s[2] as word) << 2) | ((HostWord(s) >> 13) & 3)
  }

  /** y and z come with nine bits; the lowest is not transmitted. */
  function HostY(s: seq<byte>): word
    requires |s| >= 5
  {
    ((s[3] as word) << 2) | ((HostWord(s) >> 4) & 2)
  }

  function HostZ(s: seq<byte>): word
    requires |s| >= 5
  {
    ((s[4] as word) << 2) | ((HostWord(s) >> 5) & 2)
  }

  lemma ButtonWordSplits(b: word, x: word, y: word, z: word)
    requires b & ACC_BITS == 0 && x < 0x400 && y < 0x400 && z < 0x400
    ensures var w := ButtonWord(b, Acc(x, y, z));
            && w & !ACC_BITS == b
            && (w >> 13) & 3 == x & 3 && (w >> 4) & 2 == y & 2 && (w >> 5) & 2 == z & 2
  {
  }

  lemma JoinTenBits(x: word, low: word)
    requires x < 0x400 && low == x & 3
    ensures ((((x >> 2) & 0xFF) as byte as word) << 2) | low == x
  {
  }

  lemma JoinNineBits(y: word, low: word)
    requires y < 0x400 && low == y & 2
    ensures ((((y >> 2) & 0xFF) as byte as word) << 2) | low == y & 0x3FE
  {
  }

  lemma BigEndian(w: word)
    ensures ((High(w) as word) << 8) | (Low(w) as word) == w
  {
  }

  /** In every accelerometer mode the host gets back the buttons and x exactly, and y and z up to
      their lowest bit; this needs the buttons to leave the acceleration bits alone. */
  lemma AccReportDecodes(id: byte, buttons: word, acc: Acc, ir: seq<byte>, ext: seq<byte>)
    requires |ir| == IrSize(id) && |ext| == ExtSize(id) && AccSize(id) > 0
    requires buttons & ACC_BITS == 0 && acc.TenBit()
    ensures var s := Payload(id, buttons, acc, ir, ext);
            && |s| >= 5
            && HostWord(s) & !ACC_BITS == buttons
            && HostX(s) == acc.x && HostY(s) == acc.y & 0x3FE && HostZ(s) == acc.z & 0x3FE
  {
    var s := Payload(id, buttons, acc, ir, ext);
    AccPrefix(id, buttons, acc, ir, ext);
    DecodePrefix(s, buttons, acc);
  }

  lemma AccPrefix(id: byte, buttons: word, acc: Acc, ir: seq<byte>, ext: seq<byte>)
    requires |ir| == IrSize(id) && |ext| == ExtSize(id) && AccSize(id) > 0
    ensures var s := Payload(id, buttons, acc, ir, ext);
            |s| >= 5 && s[..2] == ButtonBytes(ButtonWord(buttons, acc)) && s[2..5] == AccBytes(acc)
  {
  }

  lemma DecodePrefix(s: seq<byte>, buttons: word, acc: Acc)
    requires |s| >= 5 && buttons & ACC_BITS == 0 && acc.TenBit()
    requires s[..2] == ButtonBytes(ButtonWord(buttons, acc)) && s[2..5] == AccBytes(acc)
    ensures HostWord(s) & !ACC_BITS == buttons
    ensures HostX(s) == acc.x && HostY(s) == acc.y & 0x3FE && HostZ(s) == acc.z & 0x3FE
  {
    assert s[2] == s[2..5][0] && s[3] == s[2..5][1] && s[4] == s[2..5][2];
    PrefixWord(s, ButtonWord(buttons, acc));
    DecodeWord(HostWord(s), buttons, acc.x, acc.y, acc.z);
  }

  lemma PrefixWord(s: seq<byte>, w: word)
    requires |s| >= 5 && s[..2] == ButtonBytes(w)
    ensures HostWord(s) == w
  {
    assert s[0] == s[..2][0] && s[1] == s[..2][1];
    BigEndian(w);
  }

  lemma DecodeWord(w: word, buttons: word, x: word, y: word, z: word)
    requires buttons & ACC_BITS == 0 && x < 0x400 && y < 0x400 && z < 0x400
    requires w == ButtonWord(buttons, Acc(x, y, z))
    ensures w & !ACC_BITS == buttons
    ensures ((((x >> 2) & 0xFF) as byte as word) << 2) | ((w >> 13) & 3) == x
    ensures ((((y >> 2) & 0xFF) as byte as word) << 2) | ((w >> 4) & 2) == y & 0x3FE
    ensures ((((z >> 2) & 0xFF) as byte as word) << 2) | ((w >> 5) & 2) == z & 0x3FE
  {
    ButtonWordSplits(buttons, x, y, z);
    JoinTenBits(x, (w >> 13) & 3);
    JoinNineBits(y, (w >> 4) & 2);
    JoinNineBits(z, (w >> 5) & 2);
  }

  /** In the other modes with buttons the word is the buttons. */
  lemma PlainReportDecodes(id: byte, buttons: word, acc: Acc, ir: seq<byte>, ext: seq<byte>)
    requires |ir| == IrSize(id) && |ext| == ExtSize(id) && AccSize(id) == 0 && HasBtn(id)
    ensures HostWord(Payload(id, buttons, acc, ir, ext)) == buttons
  {
    BigEndian(buttons);
    var s := Payload(id, buttons, acc, ir, ext);
    assert s[0] == High(buttons) && s[1] == Low(buttons);
  }

  /** Every segment is found at its offset. */
  lemma SegmentsAreRead(id: byte, buttons: word, acc: Acc, ir: seq<byte>, ext: seq<byte>)
    requires |ir| == IrSize(id) && |ext| == ExtSize(id)
    ensures var s := Payload(id, buttons, acc, ir, ext);
            && (IrSize(id) > 0 ==> s[IrOffset(id)..IrOffset(id) + IrSize(id)] == ir)
            && (ExtSize(id) > 0 ==> s[ExtOffset(id)..ExtOffset(id) + ExtSize(id)] == ext)
  {
    SegmentsTile(id);
  }

  // ---------------------------------------------------------------- the nine modes

  /** A data report, taken apart by a host that knows the modes: buttons, acceleration, IR, extension. */
  datatype Parts = Parts(buttons: seq<byte>, acc: seq<byte>, ir: seq<byte>, ext: seq<byte>)

  function HostParts(id: byte, s: seq<byte>): Option<Parts> {
    if id == 0x30 && |s| == 2 then Some(Parts(s, [], [], []))
    else if id == 0x31 && |s| == 5 then Some(Parts(s[..2], s[2..], [], []))
    else if id == 0x32 && |s| == 10 then Some(Parts(s[..2], [], [], s[2..]))
    else if id == 0x33 && |s| == 17 then Some(Parts(s[..2], s[2..5], s[5..], []))
    else if id == 0x34 && |s| == 21 then Some(Parts(s[..2], [], [], s[2..]))
    else if id == 0x35 && |s| == 21 then Some(Parts(s[..2], s[2..5], [], s[5..]))
    else if id == 0x36 && |s| == 21 then Some(Parts(s[..2], [], s[2..12], s[12..]))
    else if id == 0x37 && |s| == 21 then Some(Parts(s[..2], s[2..5], s[5..15], s[15..]))
    else if id == 0x3D && |s| == 21 then Some(Parts([], [], [], s))
    else None
  }

  /** In each of the nine modes the host finds every part, whole, at its place. */
  lemma PartsReachHost(id: byte, buttons: word, acc: Acc, ir: seq<byte>, ext: seq<byte>)
    requires |ir| == IrSize(id) && |ext| == ExtSize(id) && (0x30 <= id <= 0x37 || id == 0x3D)
    ensures var parts := HostParts(id, Payload(id, buttons, acc, ir, ext));
            && parts.Some? && parts.value.ir == ir && parts.value.ext == ext
            && (parts.value.acc == [] || parts.value.acc == AccBytes(acc))
            && parts.value.buttons == (if id == 0x3D then []
                                       else if parts.value.acc == [] then [High(buttons), Low(buttons)]
                                       else [High(ButtonWord(buttons, acc)), Low(ButtonWord(buttons, acc))])
  {
    hide High, Low, ButtonWord, AccBytes;
  }
}
