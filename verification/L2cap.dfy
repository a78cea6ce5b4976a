/**
 * L2CAP framing: the message builders of source/injmessage.c and the parsing loops of
 * source/fake_wiimote.c, shown to undo each other (sections 4 and 5 of Volume 3, Part A of the
 * Bluetooth Core Specification v2.1+EDR).
 */
module L2cap {
  import opened Bytes
  import opened HciState

  const SIGNAL_CID: word := 0x0001
  const PSM_HID_CNTL: word := 0x0011
  const PSM_HID_INTR: word := 0x0013
  const MTU_DEFAULT: word := 672
  const FLUSH_TIMO_DEFAULT: word := 0xffff
  const WII_REQUEST_MTU: word := 185

  const CONNECT_REQ: byte := 0x02
  const CONNECT_RSP: byte := 0x03
  const CONFIG_REQ: byte := 0x04
  const CONFIG_RSP: byte := 0x05
  const DISCONNECT_REQ: byte := 0x06
  const DISCONNECT_RSP: byte := 0x07

  const OPT_MTU: byte := 0x01
  const OPT_FLUSH_TIMO: byte := 0x02

  const ACL_HEADER := 4
  const L2CAP_HEADER := 4
  const COMMAND_HEADER := 4

  const PACKET_START: word := 2
  const POINT2POINT: word := 0

  // ---------------------------------------------------------------- builders

  /** alloc_hci_acl_msg: a complete ACL packet, point to point. */
  function AclPacket(handle: word, payload: seq<byte>): (s: seq<byte>)
    requires |payload| < 0x1_0000
    ensures |s| == ACL_HEADER + |payload|
  {
    Le16(MkConHandle(handle, PACKET_START, POINT2POINT)) + Le16(Word(|payload|)) + payload
  }

  /** alloc_l2cap_msg */
  function L2capPacket(handle: word, dcid: word, payload: seq<byte>): (s: seq<byte>)
    requires |payload| < 0x1_0000 - L2CAP_HEADER
    ensures |s| == ACL_HEADER + L2CAP_HEADER + |payload|
  {
    AclPacket(handle, Le16(Word(|payload|)) + Le16(dcid) + payload)
  }

  datatype Signal = Signal(code: byte, ident: byte, payload: seq<byte>)

  predicate SignalFits(s: Signal) {
    |s.payload| < 0x1_0000 - L2CAP_HEADER - COMMAND_HEADER
  }

  function SignalBytes(s: Signal): (r: seq<byte>)
    requires SignalFits(s)
    ensures |r| == COMMAND_HEADER + |s.payload|
  {
    [s.code, s.ident] + Le16(Word(|s.payload|)) + s.payload
  }

  /** alloc_l2cap_cmd_msg */
  function SignalPacket(handle: word, s: Signal): seq<byte>
    requires SignalFits(s)
  {
    L2capPacket(handle, SIGNAL_CID, SignalBytes(s))
  }

  /** A configuration option: type, length, value. */
  datatype Opt = Opt(kind: byte, value: seq<byte>)

  predicate OptFits(o: Opt) {
    && |o.value| < 0x100
    && (o.kind == OPT_MTU || o.kind == OPT_FLUSH_TIMO ==> |o.value| == 2)
  }

  function OptBytes(o: Opt): (r: seq<byte>)
    requires OptFits(o)
    ensures |r| == 2 + |o.value|
  {
    [o.kind, Byte(|o.value|)] + o.value
  }

  function OptsBytes(os: seq<Opt>): seq<byte>
    requires forall i :: 0 <= i < |os| ==> OptFits(os[i])
  {
    if os == [] then [] else OptBytes(os[0]) + OptsBytes(os[1..])
  }

  /** The options inject_l2cap_config_req writes: defaults are left out. */
  function ConfigOptions(mtu: word, flush: word): (os: seq<Opt>)
    ensures forall i :: 0 <= i < |os| ==> OptFits(os[i])
  {
    (if mtu != MTU_DEFAULT then [Opt(OPT_MTU, Le16(mtu))] else [])
    + (if flush != FLUSH_TIMO_DEFAULT then [Opt(OPT_FLUSH_TIMO, Le16(flush))] else [])
  }

  // ---------------------------------------------------------------- the signalling loop

  function CommandLength(data: seq<byte>): nat
    requires |data| >= COMMAND_HEADER
  {
    Val(WordAt(data, 2))
  }

  /** No command claims more bytes than there are; fewer than four trailing bytes are ignored. */
  predicate SignalsWellFormed(data: seq<byte>)
    decreases |data|
  {
    |data| < COMMAND_HEADER ||
    (COMMAND_HEADER + CommandLength(data) <= |data| &&
     SignalsWellFormed(data[COMMAND_HEADER + CommandLength(data)..]))
  }

  /** The commands the loop visits, in order. */
  function Signals(data: seq<byte>): seq<Signal>
    requires SignalsWellFormed(data)
    decreases |data|
  {
    if |data| < COMMAND_HEADER then []
    else
      var end := COMMAND_HEADER + CommandLength(data);
      [Signal(data[0], data[1], data[COMMAND_HEADER..end])] + Signals(data[end..])
  }

  function SignalsBytes(ss: seq<Signal>): seq<byte>
    requires forall i :: 0 <= i < |ss| ==> SignalFits(ss[i])
  {
    if ss == [] then [] else SignalBytes(ss[0]) + SignalsBytes(ss[1..])
  }

  lemma FirstSignal(s: Signal, rest: seq<byte>)
    requires SignalFits(s)
    ensures var data := SignalBytes(s) + rest;
            && |data| >= COMMAND_HEADER && CommandLength(data) == |s.payload|
            && data[0] == s.code && data[1] == s.ident
            && data[COMMAND_HEADER..COMMAND_HEADER + |s.payload|] == s.payload
            && data[COMMAND_HEADER + |s.payload|..] == rest
  {
    hide Word, FromLe16, Le16, Val;
    var w := Word(|s.payload|);
    var data := SignalBytes(s) + rest;
    assert data[2] == Le16(w)[0] && data[3] == Le16(w)[1];
    Le16RoundTrip(w);
    assert WordAt(data, 2) == w;
  }

  /** Built commands, one after the other, are visited one by one and nothing else is. */
  lemma {:induction false} SignalsUndoBytes(ss: seq<Signal>)
    requires forall i :: 0 <= i < |ss| ==> SignalFits(ss[i])
    ensures SignalsWellFormed(SignalsBytes(ss)) && Signals(SignalsBytes(ss)) == ss
  {
    hide CommandLength, SignalBytes;
    if ss != [] {
      FirstSignal(ss[0], SignalsBytes(ss[1..]));
      SignalsUndoBytes(ss[1..]);
    }
  }

  // ---------------------------------------------------------------- the option loop

  function OptEnd(data: seq<byte>): nat
    requires |data| >= 2
  {
    2 + data[1] as nat
  }

  /** Every option lies inside the list, and the two known ones have their length. */
  predicate OptionsWellFormed(data: seq<byte>)
    decreases |data|
  {
    data == [] ||
    (|data| >= 2 && OptEnd(data) <= |data|
     && (data[0] == OPT_MTU || data[0] == OPT_FLUSH_TIMO ==> data[1] == 2)
     && OptionsWellFormed(data[OptEnd(data)..]))
  }

  /** The MTU after the loop, which starts from mtu. */
  function ParsedMtu(data: seq<byte>, mtu: word): word
    requires OptionsWellFormed(data)
    decreases |data|
  {
    if data == [] then mtu
    else
      TwoByteOption(data);
      ParsedMtu(data[OptEnd(data)..], if data[0] == OPT_MTU then WordAt(data, 2) else mtu)
  }

  lemma TwoByteOption(data: seq<byte>)
    requires |data| >= 2 && OptEnd(data) <= |data|
    ensures data[1] == 2 ==> |data| >= 4
  {
  }

  /** The reference: the last MTU option of the list, or the start value. */
  function LastMtu(os: seq<Opt>, mtu: word): word
    requires forall i :: 0 <= i < |os| ==> OptFits(os[i])
  {
    if os == [] then mtu
    else
      var last := os[|os| - 1];
      assert OptFits(last);
      if last.kind == OPT_MTU then WordAt(last.value, 0) else LastMtu(os[..|os| - 1], mtu)
  }

  lemma {:induction false} LastMtuFromFront(os: seq<Opt>, mtu: word)
    requires os != [] && forall i :: 0 <= i < |os| ==> OptFits(os[i])
    ensures LastMtu(os, mtu) ==
            LastMtu(os[1..], if os[0].kind == OPT_MTU then WordAt(os[0].value, 0) else mtu)
  {
    hide FromLe16;
    if |os| > 1 {
      var n := |os| - 1;
      assert os[1..][..n - 1] == os[..n][1..];
      assert os[1..][n - 1] == os[n];
      LastMtuFromFront(os[..n], mtu);
    }
  }

  lemma FirstOption(o: Opt, rest: seq<byte>)
    requires OptFits(o)
    ensures var data := OptBytes(o) + rest;
            && OptEnd(data) == 2 + |o.value| <= |data| && data[0] == o.kind
            && (o.kind == OPT_MTU || o.kind == OPT_FLUSH_TIMO ==> data[1] == 2)
            && (|o.value| == 2 ==> WordAt(data, 2) == WordAt(o.value, 0))
            && data[OptEnd(data)..] == rest
  {
    hide FromLe16, Byte;
    var data := OptBytes(o) + rest;
    if |o.value| == 2 {
      ByteUnique(data[1], 2);
      assert data[2] == o.value[0] && data[3] == o.value[1];
    }
  }

  /** On every list of options the loop ends with the last MTU option, or the start value. */
  lemma {:induction false} OptionLoopFindsLastMtu(os: seq<Opt>, mtu: word)
    requires forall i :: 0 <= i < |os| ==> OptFits(os[i])
    ensures OptionsWellFormed(OptsBytes(os))
    ensures ParsedMtu(OptsBytes(os), mtu) == LastMtu(os, mtu)
    decreases |os|
  {
    hide OptBytes, OptEnd, FromLe16;
    if os != [] {
      FirstOption(os[0], OptsBytes(os[1..]));
      OptionLoopFindsLastMtu(os[1..], if os[0].kind == OPT_MTU then WordAt(os[0].value, 0) else mtu);
      LastMtuFromFront(os, mtu);
    }
  }

  /** Parsing the options of a configuration request gives back the MTU it was built for, also
      when that is the default and so not written. */
  lemma ConfigRequestGivesBackMtu(mtu: word, flush: word)
    ensures var data := OptsBytes(ConfigOptions(mtu, flush));
            OptionsWellFormed(data) && ParsedMtu(data, MTU_DEFAULT) == mtu
  {
    var os := ConfigOptions(mtu, flush);
    OptionLoopFindsLastMtu(os, MTU_DEFAULT);
    Le16RoundTrip(mtu);
    if mtu != MTU_DEFAULT {
      assert os[0] == Opt(OPT_MTU, Le16(mtu));
      if flush != FLUSH_TIMO_DEFAULT {
        assert os[..1] == [os[0]];
      }
      assert LastMtu([os[0]], MTU_DEFAULT) == mtu;
    } else if flush != FLUSH_TIMO_DEFAULT {
      assert os[..0] == [];
    }
  }

  /** The header of a built packet names the handle and the channel, and counts its payload. */
  lemma PacketHeader(handle: word, dcid: word, payload: seq<byte>)
    requires |payload| < 0x1_0000 - L2CAP_HEADER && handle < 0x1000
    ensures var s := L2capPacket(handle, dcid, payload);
            && ConHandle(WordAt(s, 0)) == handle && PbFlag(WordAt(s, 0)) == 2 && BcFlag(WordAt(s, 0)) == 0
            && Val(WordAt(s, 2)) == L2CAP_HEADER + |payload|
            && Val(WordAt(s, 4)) == |payload| && WordAt(s, 6) == dcid && s[8..] == payload
  {
    hide Word, Val, FromLe16, Le16, ConHandle, PbFlag, BcFlag, MkConHandle;
    var s := L2capPacket(handle, dcid, payload);
    var w0, w1, w2 := MkConHandle(handle, PACKET_START, POINT2POINT), Word(L2CAP_HEADER + |payload|), Word(|payload|);
    Le16RoundTrip(w0);
    Le16RoundTrip(w1);
    Le16RoundTrip(w2);
    Le16RoundTrip(dcid);
    HeaderFields(handle);
    assert s[0] == Le16(w0)[0] && s[1] == Le16(w0)[1];
    assert s[2] == Le16(w1)[0] && s[3] == Le16(w1)[1];
    assert s[4] == Le16(w2)[0] && s[5] == Le16(w2)[1];
    assert s[6] == Le16(dcid)[0] && s[7] == Le16(dcid)[1];
  }

  lemma HeaderFields(handle: word)
    requires handle < 0x1000
    ensures var w := MkConHandle(handle, PACKET_START, POINT2POINT);
            ConHandle(w) == handle && PbFlag(w) == PACKET_START && BcFlag(w) == POINT2POINT
  {
  }

  // ---------------------------------------------------------------- the code

  /** The loop of handle_l2cap_config_req. */
  method ParseOptions(options: seq<byte>) returns (mtu: word)
    requires OptionsWellFormed(options)
    ensures mtu == ParsedMtu(options, MTU_DEFAULT)
  {
    mtu := MTU_DEFAULT;
    var offset := 0;
    while offset < |options|
      invariant 0 <= offset <= |options| && OptionsWellFormed(options[offset..])
      invariant ParsedMtu(options[offset..], mtu) == ParsedMtu(options, MTU_DEFAULT)
    {
      ghost var left := options[offset..];
      TwoByteOption(left);
      var kind, length := options[offset], options[offset + 1] as nat;
      offset := offset + 2;
      if kind == OPT_MTU {
        mtu := (options[offset] as word) | ((options[offset + 1] as word) << 8);
      }
      offset := offset + length;
      assert options[offset..] == left[OptEnd(left)..];
    }
  }

  /** The option writing of inject_l2cap_config_req, at a running offset. */
  method WriteConfigRequest(cid: word, mtu: word, flush: word) returns (req: array<byte>)
    ensures fresh(req)
    ensures req[..] == Le16(cid) + Le16(0) + OptsBytes(ConfigOptions(mtu, flush))
  {
    var size := 4;
    if mtu != MTU_DEFAULT {
      size := size + 4;
    }
    if flush != FLUSH_TIMO_DEFAULT {
      size := size + 4;
    }
    req := new byte[size];
    PutLe16(req, 0, cid);
    PutLe16(req, 2, 0);
    var offset := 4;
    ghost var done := Le16(cid) + Le16(0);
    assert req[..4] == done;
    if mtu != MTU_DEFAULT {
      PutOption(req, offset, OPT_MTU, mtu);
      done := done + OptBytes(Opt(OPT_MTU, Le16(mtu)));
      offset := offset + 4;
      assert req[..offset] == done;
    }
    if flush != FLUSH_TIMO_DEFAULT {
      PutOption(req, offset, OPT_FLUSH_TIMO, flush);
      done := done + OptBytes(Opt(OPT_FLUSH_TIMO, Le16(flush)));
      offset := offset + 4;
      assert req[..offset] == done;
    }
    assert req[..] == req[..offset];
    OptionsSpelledOut(mtu, flush);
  }

  method PutLe16(a: array<byte>, at: nat, w: word)
    requires at + 2 <= a.Length
    modifies a
    ensures a[..] == Splice(old(a[..]), at, Le16(w))
  {
    a[at] := Low(w);
    a[at + 1] := High(w);
    assert a[..] == Splice(old(a[..]), at, Le16(w));
  }

  method PutOption(a: array<byte>, at: nat, kind: byte, w: word)
    requires at + 4 <= a.Length && (kind == OPT_MTU || kind == OPT_FLUSH_TIMO)
    modifies a
    ensures a[..at] == old(a[..at]) && a[at..at + 4] == OptBytes(Opt(kind, Le16(w)))
  {
    TwoIsAByte();
    a[at], a[at + 1] := kind, 2;
    PutLe16(a, at + 2, w);
    assert a[at..at + 4] == [kind, 2] + Le16(w);
  }

  lemma TwoIsAByte()
    ensures Byte(2) == 2
  {
    ByteUnique(Byte(2), 2);
  }

  lemma OptionsSpelledOut(mtu: word, flush: word)
    ensures OptsBytes(ConfigOptions(mtu, flush)) ==
            (if mtu != MTU_DEFAULT then OptBytes(Opt(OPT_MTU, Le16(mtu))) else [])
            + (if flush != FLUSH_TIMO_DEFAULT then OptBytes(Opt(OPT_FLUSH_TIMO, Le16(flush))) else [])
  {
    hide OptBytes, Le16;
    var os := ConfigOptions(mtu, flush);
    assert OptsBytes([]) == [];
    if |os| == 2 {
      assert os[1..] == [os[1]] && os[1..][1..] == [];
    } else if |os| == 1 {
      assert os[1..] == [];
    }
  }
}
