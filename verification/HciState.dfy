/**
 * The HCI tracker of source/hci_state.c: the table that renames the dongle's connection
 * handles, and the in-place translation of events, commands and ACL headers.
 */
module HciState {
  import opened Bytes

  const MAX_HCI_CONNECTIONS := 32

  datatype Slot = Slot(valid: bool, virt: word, phys: word)

  /** The static variables of the tracker that outlive a call. */
  datatype Hci = Hci(table: seq<Slot>, last: word, scanEnable: byte, readAllKeys: byte)

  // ---------------------------------------------------------------- virtual handles

  /** The counter's successor. The mask clears bit 8 as well, so the cycle has 256 handles. */
  function NextHandle(h: word): word {
    (h + 1) & 0x0EFF
  }

  /** The handle the n-th allocation since the last reset returns. */
  function HandleOf(n: nat): word {
    if n == 0 then 0 else NextHandle(HandleOf(n - 1))
  }

  lemma NextHandleValue(h: word)
    requires h < 0x100
    ensures NextHandle(h) == (if h == 0xFF then 0 else h + 1) && NextHandle(h) < 0x100
  {
  }

  lemma SmallSucc(h: word)
    requires h < 0xFF
    ensures Low(h + 1) == Low(h) + 1 && Low(h) != 0xFF && High(h + 1) == 0 && High(h) == 0
  {
  }

  lemma ValSucc(h: word)
    requires h < 0xFF
    ensures Val(h + 1) == Val(h) + 1 < 0x100
  {
    SmallSucc(h);
    NotMaxSucc(Low(h));
  }

  lemma ValEnds()
    ensures Val(0) == 0 && Val(0xFF) == 0xFF
  {
  }

  lemma NextHandleCounts(h: word)
    requires h < 0x100
    ensures NextHandle(h) < 0x100
    ensures Val(NextHandle(h)) == if Val(h) == 0xFF then 0 else Val(h) + 1
    ensures Val(h) < 0x100
  {
    NextHandleValue(h);
    ValEnds();
    if h != 0xFF {
      ValSucc(h);
    }
  }

  /** Although the counter is masked with 0x0EFF, it only ever shows 0x00 to 0xFF, in turn. */
  lemma {:induction false} CounterWalksHandles(n: nat)
    ensures Val(HandleOf(n)) == n % 0x100
    ensures HandleOf(n) < 0x100
  {
    if n == 0 {
      ValEnds();
    } else {
      CounterWalksHandles(n - 1);
      NextHandleCounts(HandleOf(n - 1));
      ModSucc(n);
    }
  }

  lemma ModSucc(n: nat)
    requires n > 0
    ensures n % 0x100 == if (n - 1) % 0x100 == 0xFF then 0 else (n - 1) % 0x100 + 1
  {
  }

  /** Two allocations return the same handle exactly when they are a multiple of 256 apart. */
  lemma HandleCollision(m: nat, n: nat)
    ensures HandleOf(m) == HandleOf(n) <==> m % 0x100 == n % 0x100
  {
    CounterWalksHandles(m);
    CounterWalksHandles(n);
    if m % 0x100 == n % 0x100 {
      WordUnique(HandleOf(m), HandleOf(n));
    }
  }

  // ---------------------------------------------------------------- table lookups

  /** First slot mapping phys. */
  function GetVirt(t: seq<Slot>, phys: word): Option<word> {
    if t == [] then None
    else if t[0].valid && t[0].phys == phys then Some(t[0].virt)
    else GetVirt(t[1..], phys)
  }

  /** First slot mapped to virt. */
  function GetPhys(t: seq<Slot>, virt: word): Option<word> {
    if t == [] then None
    else if t[0].valid && t[0].virt == virt then Some(t[0].phys)
    else GetPhys(t[1..], virt)
  }

  /** Fills the first free slot, if there is one. */
  function Map(t: seq<Slot>, phys: word, virt: word): (r: seq<Slot>)
    ensures |r| == |t|
  {
    if t == [] then []
    else if !t[0].valid then [Slot(true, virt, phys)] + t[1..]
    else [t[0]] + Map(t[1..], phys, virt)
  }

  /** Frees the first slot mapped to virt, if there is one. */
  function UnmapVirt(t: seq<Slot>, virt: word): (r: seq<Slot>)
    ensures |r| == |t|
  {
    if t == [] then []
    else if t[0].valid && t[0].virt == virt then [t[0].(valid := false)] + t[1..]
    else [t[0]] + UnmapVirt(t[1..], virt)
  }

  lemma MapStep(t: seq<Slot>, i: nat, phys: word, virt: word)
    requires i < |t|
    ensures t[..i] + Map(t[i..], phys, virt) ==
            if t[i].valid then t[..i + 1] + Map(t[i + 1..], phys, virt) else t[i := Slot(true, virt, phys)]
  {
    assert t[i..][1..] == t[i + 1..];
  }

  lemma UnmapStep(t: seq<Slot>, i: nat, virt: word)
    requires i < |t|
    ensures t[..i] + UnmapVirt(t[i..], virt) ==
            if t[i].valid && t[i].virt == virt then t[i := t[i].(valid := false)]
            else t[..i + 1] + UnmapVirt(t[i + 1..], virt)
  {
    assert t[i..][1..] == t[i + 1..];
  }

  predicate Full(t: seq<Slot>) {
    forall i :: 0 <= i < |t| ==> t[i].valid
  }

  // ---------------------------------------------------------------- which bytes name a connection

  const CON_COMPL: byte := 0x03
  const DISCON_COMPL: byte := 0x05
  const COMMAND_COMPL: byte := 0x0e
  const NUM_COMPL_PKTS: byte := 0x13
  const SCO_CON_COMPL: byte := 0x2c

  /** Events with a status byte before the handle, and events that start with the handle. */
  const STATUS_FIRST_EVENTS: set<byte> :=
    {0x06, 0x08, 0x09, 0x0a, 0x0b, 0x0c, 0x0d, 0x14, 0x1c, 0x1d, 0x21, 0x23, 0x2c, 0x2d, 0x2e, 0x30}
  const HANDLE_FIRST_EVENTS: set<byte> := {0x11, 0x1b, 0x1e, 0x38, 0x39}

  const CMD_CREATE_CON: word := 0x0405
  const CMD_DISCONNECT: word := 0x0406
  const CMD_ACCEPT_CON: word := 0x0409
  const CMD_REJECT_CON: word := 0x040A
  const CMD_REMOTE_NAME_REQ: word := 0x0419
  const CMD_WRITE_SCAN_ENABLE: word := 0x0C1A
  const CMD_RESET: word := 0x0C03
  const CMD_READ_STORED_LINK_KEY: word := 0x0C0D
  const CMD_HOST_NUM_COMPL_PKTS: word := 0x0C35

  /** Commands whose parameters start with a connection handle that has to be translated. */
  const HANDLE_COMMANDS: set<word> :=
    {0x0406, 0x0407, 0x040F, 0x0411, 0x0413, 0x0415, 0x041B, 0x041C, 0x041D, 0x041F, 0x0420, 0x0428,
     0x0801, 0x0803, 0x0804, 0x0805, 0x0806, 0x0807, 0x0809, 0x080C, 0x080D, 0x0810, 0x0811,
     0x0C08, 0x0C27, 0x0C28, 0x0C2D, 0x0C36, 0x0C37, 0x0C53, 0x0C5F,
     0x1401, 0x1402, 0x1403, 0x1405, 0x1406, 0x1407}

  /** Commands whose parameters start with a Bluetooth address that may be a fake Wiimote's. */
  const ADDRESS_COMMANDS: set<word> := {CMD_ACCEPT_CON, CMD_REJECT_CON, CMD_REMOTE_NAME_REQ}

  /** An event packet holds its header and the fixed fields of its kind. */
  predicate EventWellFormed(data: seq<byte>) {
    && |data| >= 2
    && (data[0] == CON_COMPL || data[0] == DISCON_COMPL || data[0] in STATUS_FIRST_EVENTS ==> |data| >= 5)
    && (data[0] in HANDLE_FIRST_EVENTS ==> |data| >= 4)
    && (data[0] == NUM_COMPL_PKTS ==> |data| >= 3 && |data| >= 3 + 4 * (data[2] as nat))
    && (data[0] == COMMAND_COMPL ==>
          (|data| >= 5 && (WordAt(data, 3) == CMD_READ_STORED_LINK_KEY ==> |data| >= 10)))
  }

  /** Offsets of the connection handles an event names; failed (dis)connections name none. */
  function EventHandles(data: seq<byte>): (os: seq<nat>)
    requires EventWellFormed(data)
    ensures forall k :: 0 <= k < |os| ==> os[k] + 2 <= |data|
    ensures forall j, k :: 0 <= j < k < |os| ==> os[j] + 2 <= os[k]
  {
    if data[0] == CON_COMPL || data[0] == DISCON_COMPL then if data[2] == 0 then [3] else []
    else if data[0] in STATUS_FIRST_EVENTS then [3]
    else if data[0] in HANDLE_FIRST_EVENTS then [2]
    else if data[0] == NUM_COMPL_PKTS then CompletedHandles(data[2] as nat)
    else []
  }

  /** The events that name connections, by their code (section 7.7 of Volume 2, Part E of the Bluetooth
      Core Specification v2.1+EDR): authentication, encryption, link keys, remote features and version,
      quality of service, mode, clock, packet type, SCO, sniff and key refresh tell the handle after a
      status, flush, slots, violation and supervision begin with it. */
  lemma EventsByCode(data: seq<byte>)
    requires EventWellFormed(data)
    ensures var code := data[0];
            && (EventHandles(data) == [3] <==>
                  code == 0x06 || 0x08 <= code <= 0x0D || code == 0x14 || code == 0x1C || code == 0x1D || code == 0x21
                  || code == 0x23 || 0x2C <= code <= 0x2E || code == 0x30
                  || ((code == 0x03 || code == 0x05) && data[2] == 0)
                  || (code == 0x13 && data[2] == 1))
            && (EventHandles(data) == [2] <==> code == 0x11 || code == 0x1B || code == 0x1E || code == 0x38 || code == 0x39)
            && (|EventHandles(data)| > 1 <==> code == 0x13 && data[2] > 1)
  {
  }

  /** The commands that carry a handle, by the group in their upper six bits: link control, link policy,
      controller and baseband, status. */
  lemma CommandsByGroup(opcode: word)
    ensures opcode in HANDLE_COMMANDS <==>
            var (group, command) := (opcode >> 10, opcode & 0x03FF);
            if group == 1 then
              command in {0x06, 0x07, 0x0F, 0x11, 0x13, 0x15, 0x1B, 0x1C, 0x1D, 0x1F, 0x20, 0x28}
            else if group == 2 then
              (1 <= command <= 0x11 && command !in {0x02, 0x08, 0x0A, 0x0B, 0x0E, 0x0F})
            else if group == 3 then command in {0x08, 0x27, 0x28, 0x2D, 0x36, 0x37, 0x53, 0x5F}
            else group == 5 && 1 <= command <= 0x07 && command != 0x04
  {
  }

  /** NUM_COMPL_PKTS repeats (handle, count) pairs. */
  function CompletedHandles(n: nat): (os: seq<nat>)
    ensures |os| == n && forall k :: 0 <= k < n ==> os[k] == 3 + 4 * k
  {
    seq(n, i => 3 + 4 * i)
  }

  function HandlesAt(data: seq<byte>, os: seq<nat>): (hs: seq<word>)
    requires forall k :: 0 <= k < |os| ==> os[k] + 2 <= |data|
    ensures |hs| == |os|
  {
    seq(|os|, k requires 0 <= k < |os| => WordAt(data, os[k]))
  }

  /** data with the handle at each offset replaced; first is how many are done. */
  function PutHandles(data: seq<byte>, os: seq<nat>, hs: seq<word>): (r: seq<byte>)
    requires |os| == |hs|
    requires forall k :: 0 <= k < |os| ==> os[k] + 2 <= |data|
    ensures |r| == |data|
  {
    if os == [] then data
    else
      var last := |os| - 1;
      Splice(PutHandles(data, os[..last], hs[..last]), os[last], Le16(hs[last]))
  }

  predicate Untouched(os: seq<nat>, i: nat) {
    forall k :: 0 <= k < |os| ==> i != os[k] && i != os[k] + 1
  }

  /** No byte outside the named handles changes. */
  lemma {:induction false} PutHandlesFrame(data: seq<byte>, os: seq<nat>, hs: seq<word>, i: nat)
    requires |os| == |hs| && i < |data| && Untouched(os, i)
    requires forall k :: 0 <= k < |os| ==> os[k] + 2 <= |data|
    ensures PutHandles(data, os, hs)[i] == data[i]
  {
    if os != [] {
      var last := |os| - 1;
      assert os[last] in os;
      PutHandlesFrame(data, os[..last], hs[..last], i);
    }
  }

  /** The handles put are the handles read back. */
  lemma {:induction false} PutHandlesRead(data: seq<byte>, os: seq<nat>, hs: seq<word>, k: nat)
    requires |os| == |hs| && k < |os|
    requires forall k :: 0 <= k < |os| ==> os[k] + 2 <= |data|
    requires forall j, k :: 0 <= j < k < |os| ==> os[j] + 2 <= os[k]
    ensures WordAt(PutHandles(data, os, hs), os[k]) == hs[k]
  {
    var last := |os| - 1;
    var before := PutHandles(data, os[..last], hs[..last]);
    if k < last {
      PutHandlesRead(data, os[..last], hs[..last], k);
      SpliceKeepsWord(before, os[last], Le16(hs[last]), os[k]);
    } else {
      Splice16(before, os[k], hs[k]);
    }
  }

  /** Putting one more handle is one more splice. */
  lemma PutNext(data: seq<byte>, os: seq<nat>, hs: seq<word>, i: nat)
    requires |os| == |hs| && i < |os|
    requires forall k :: 0 <= k < |os| ==> os[k] + 2 <= |data|
    ensures PutHandles(data, os[..i + 1], hs[..i + 1]) ==
            Splice(PutHandles(data, os[..i], hs[..i]), os[i], Le16(hs[i]))
  {
    assert os[..i + 1][..i] == os[..i] && hs[..i + 1][..i] == hs[..i];
  }

  /** A handle is untouched until its turn comes. */
  lemma {:induction false} PutLeavesRest(data: seq<byte>, os: seq<nat>, hs: seq<word>, at: nat)
    requires |os| == |hs| && at + 2 <= |data|
    requires forall k :: 0 <= k < |os| ==> os[k] + 2 <= at
    ensures WordAt(PutHandles(data, os, hs), at) == WordAt(data, at)
  {
    if os != [] {
      var last := |os| - 1;
      PutLeavesRest(data, os[..last], hs[..last], at);
      SpliceKeepsWord(PutHandles(data, os[..last], hs[..last]), os[last], Le16(hs[last]), at);
    }
  }

  lemma SpliceKeepsWord(data: seq<byte>, at: nat, src: seq<byte>, i: nat)
    requires at + |src| <= |data| && i + 2 <= |data|
    requires i + 2 <= at || at + |src| <= i
    ensures WordAt(Splice(data, at, src), i) == WordAt(data, i)
  {
  }

  lemma Splice16(data: seq<byte>, at: nat, w: word)
    requires at + 2 <= |data|
    ensures WordAt(Splice(data, at, Le16(w)), at) == w
  {
    Le16RoundTrip(w);
  }

  // ---------------------------------------------------------------- the three translations

  function VirtOf(t: seq<Slot>, phys: word): word {
    match GetVirt(t, phys) case Some(v) => v case None => 0
  }

  function PhysOf(t: seq<Slot>, virt: word): word {
    match GetPhys(t, virt) case Some(p) => p case None => 0
  }

  function VirtsOf(t: seq<Slot>, hs: seq<word>): (r: seq<word>)
    ensures |r| == |hs|
  {
    seq(|hs|, k requires 0 <= k < |hs| => VirtOf(t, hs[k]))
  }

  predicate AllMapped(t: seq<Slot>, hs: seq<word>) {
    forall k :: 0 <= k < |hs| ==> GetVirt(t, hs[k]).Some?
  }

  /** The assertions of the event handler: a new connection needs a free slot, every other named
      connection must be mapped. */
  predicate EventExpected(h: Hci, data: seq<byte>) {
    && EventWellFormed(data)
    && var hs := HandlesAt(data, EventHandles(data));
       if data[0] == CON_COMPL then data[2] == 0 ==> !Full(h.table)
       else AllMapped(h.table, hs)
  }

  /** The table after an event. */
  function EventState(h: Hci, data: seq<byte>): Hci
    requires EventWellFormed(data)
  {
    if data[0] == CON_COMPL && data[2] == 0 then
      h.(table := Map(h.table, WordAt(data, 3), h.last), last := NextHandle(h.last))
    else if data[0] == DISCON_COMPL && data[2] == 0 then
      h.(table := UnmapVirt(h.table, VirtOf(h.table, WordAt(data, 3))))
    else h
  }

  const MAX_FAKE_WIIMOTES := 2

  /** The completion of a read-all-link-keys command is the one untranslated event that is
      patched: the fake Wiimotes' keys are counted in. */
  function PatchLinkKeys(h: Hci, data: seq<byte>): (r: seq<byte>)
    requires |data| >= 5 && (WordAt(data, 3) == CMD_READ_STORED_LINK_KEY ==> |data| >= 10)
    ensures |r| == |data|
  {
    if WordAt(data, 3) == CMD_READ_STORED_LINK_KEY && h.readAllKeys != 0 then
      Splice(Splice(data, 6, Le16(WordAt(data, 6) + 2)), 8, Le16(WordAt(data, 8) + 2))
    else data
  }

  /** The event as the host sees it. */
  function EventData(h: Hci, data: seq<byte>): (r: seq<byte>)
    requires EventWellFormed(data)
    ensures |r| == |data|
  {
    if data[0] == COMMAND_COMPL then PatchLinkKeys(h, data)
    else
      var os := EventHandles(data);
      var hs := HandlesAt(data, os);
      PutHandles(data, os, if data[0] == CON_COMPL then Fill(|hs|, h.last) else VirtsOf(h.table, hs))
  }

  /** Handle by handle, what the event handler writes. */
  lemma EventDataHandle(h: Hci, data: seq<byte>, k: nat)
    requires EventWellFormed(data) && k < |EventHandles(data)|
    ensures WordAt(EventData(h, data), EventHandles(data)[k]) ==
            if data[0] == CON_COMPL then h.last else VirtOf(h.table, WordAt(data, EventHandles(data)[k]))
  {
    var os := EventHandles(data);
    var hs := HandlesAt(data, os);
    var vs := if data[0] == CON_COMPL then Fill(|hs|, h.last) else VirtsOf(h.table, hs);
    EventDataPuts(h, data, os, vs);
    PutHandlesRead(data, os, vs, k);
  }

  lemma EventDataPuts(h: Hci, data: seq<byte>, os: seq<nat>, vs: seq<word>)
    requires EventWellFormed(data) && os == EventHandles(data) && os != [] && |os| == |vs|
    requires vs == if data[0] == CON_COMPL then Fill(|os|, h.last) else VirtsOf(h.table, HandlesAt(data, os))
    ensures EventData(h, data) == PutHandles(data, os, vs)
  {
  }

  predicate CommandWellFormed(data: seq<byte>) {
    && |data| >= 3
    && (WordAt(data, 0) in HANDLE_COMMANDS ==> |data| >= 5)
    && (WordAt(data, 0) in ADDRESS_COMMANDS ==> |data| >= 9)
    && (WordAt(data, 0) == CMD_WRITE_SCAN_ENABLE ==> |data| >= 4)
    && (WordAt(data, 0) == CMD_READ_STORED_LINK_KEY ==> |data| >= 10)
  }

  /** Commands the tracker has no code for: their cases are failing assertions. */
  predicate Unsupported(opcode: word) {
    opcode == CMD_CREATE_CON || opcode == CMD_HOST_NUM_COMPL_PKTS
  }

  /** The assertions of the command handler. */
  predicate CommandExpected(h: Hci, data: seq<byte>) {
    && CommandWellFormed(data) && !Unsupported(WordAt(data, 0))
    && (WordAt(data, 0) in HANDLE_COMMANDS ==> GetPhys(h.table, WordAt(data, 3)).Some?)
  }

  function Reset(): Hci {
    Hci(Fill(MAX_HCI_CONNECTIONS, Slot(false, 0, 0)), 0, 0, 0)
  }

  /** hci_state_reset only clears the valid flags. */
  function ResetState(h: Hci): (r: Hci)
    ensures |r.table| == |h.table| && forall i :: 0 <= i < |r.table| ==> !r.table[i].valid
  {
    Hci(seq(|h.table|, i requires 0 <= i < |h.table| => h.table[i].(valid := false)), 0, 0, 0)
  }

  function CommandState(h: Hci, data: seq<byte>): Hci
    requires CommandWellFormed(data)
  {
    var opcode := WordAt(data, 0);
    if opcode == CMD_RESET then ResetState(h)
    else if opcode == CMD_WRITE_SCAN_ENABLE then h.(scanEnable := data[3])
    else if opcode == CMD_READ_STORED_LINK_KEY then h.(readAllKeys := data[9])
    else h
  }

  /** The command as the dongle sees it. */
  function CommandData(h: Hci, data: seq<byte>): (r: seq<byte>)
    requires CommandWellFormed(data)
    ensures |r| == |data|
  {
    if WordAt(data, 0) in HANDLE_COMMANDS then Splice(data, 3, Le16(PhysOf(h.table, WordAt(data, 3))))
    else data
  }

  lemma CommandDataHandle(h: Hci, data: seq<byte>)
    requires CommandWellFormed(data) && WordAt(data, 0) in HANDLE_COMMANDS
    ensures WordAt(CommandData(h, data), 3) == PhysOf(h.table, WordAt(data, 3))
    ensures CommandData(h, data)[..3] == data[..3] && CommandData(h, data)[5..] == data[5..]
  {
    var phys := PhysOf(h.table, WordAt(data, 3));
    Splice16(data, 3, phys);
    SpliceParts(data, 3, Le16(phys));
  }

  // ACL headers carry the packet boundary and broadcast flags above the 12-bit handle.

  function ConHandle(w: word): word { w & 0x0fff }

  function PbFlag(w: word): word { (w & 0x3000) >> 12 }

  function BcFlag(w: word): word { (w & 0xc000) >> 14 }

  function MkConHandle(h: word, pb: word, bc: word): word {
    (h & 0x0fff) | ((pb & 3) << 12) | ((bc & 3) << 14)
  }

  function Rename(w: word, h: word): word {
    MkConHandle(h, PbFlag(w), BcFlag(w))
  }

  lemma RenameKeepsFlags(w: word, h: word)
    requires h < 0x1000
    ensures ConHandle(Rename(w, h)) == h
    ensures PbFlag(Rename(w, h)) == PbFlag(w) && BcFlag(Rename(w, h)) == BcFlag(w)
    ensures Rename(w, ConHandle(w)) == w
    ensures ConHandle(w) < 0x1000
  {
  }

  lemma RenameTwice(w: word, g: word, h: word)
    ensures Rename(Rename(w, g), h) == Rename(w, h)
  {
  }

  function AclIn(h: Hci, data: seq<byte>): (r: seq<byte>)
    requires |data| >= 4
    ensures |r| == |data|
  {
    var w := WordAt(data, 0);
    Splice(data, 0, Le16(Rename(w, VirtOf(h.table, ConHandle(w)))))
  }

  function AclOut(h: Hci, data: seq<byte>): (r: seq<byte>)
    requires |data| >= 4
    ensures |r| == |data|
  {
    var w := WordAt(data, 0);
    Splice(data, 0, Le16(Rename(w, PhysOf(h.table, ConHandle(w)))))
  }

  /** Sending an ACL packet back out after it came in restores it byte for byte, flags included,
      whenever the table sends the virtual handle back where it came from. */
  lemma AclInThenOut(h: Hci, data: seq<byte>)
    requires |data| >= 4
    requires var phys := ConHandle(WordAt(data, 0));
             && GetVirt(h.table, phys).Some? && VirtOf(h.table, phys) < 0x1000
             && GetPhys(h.table, VirtOf(h.table, phys)) == Some(phys)
    ensures AclOut(h, AclIn(h, data)) == data
    ensures AclIn(h, data)[2..] == data[2..]
    ensures PbFlag(WordAt(AclIn(h, data), 0)) == PbFlag(WordAt(data, 0))
    ensures BcFlag(WordAt(AclIn(h, data), 0)) == BcFlag(WordAt(data, 0))
  {
    var w := WordAt(data, 0);
    var phys := ConHandle(w);
    var virt := VirtOf(h.table, phys);
    var d := AclIn(h, data);
    Splice16(data, 0, Rename(w, virt));
    RenameKeepsFlags(w, virt);
    RenameTwice(w, virt, phys);
    FromLe16RoundTrip(data[0], data[1]);
    assert AclOut(h, d) == Splice(d, 0, Le16(w));
  }

  // ---------------------------------------------------------------- the code

  class HciTracker {
    const table: array<Slot>
    var last: word
    var scanEnable: byte
    var readAllKeys: byte

    ghost function View(): Hci
      reads this, table
    {
      Hci(table[..], last, scanEnable, readAllKeys)
    }

    constructor ()
      ensures View() == Reset() && fresh(table)
    {
      table := new Slot[MAX_HCI_CONNECTIONS](_ => Slot(false, 0, 0));
      last, scanEnable, readAllKeys := 0, 0, 0;
      new;
      assert table[..] == Fill(MAX_HCI_CONNECTIONS, Slot(false, 0, 0));
    }

    method ResetTracker()
      modifies this, table
      ensures View() == ResetState(old(View()))
    {
      for i := 0 to table.Length
        invariant forall k :: 0 <= k < table.Length ==>
                    table[k] == if k < i then old(table[k]).(valid := false) else old(table[k])
      {
        table[i] := table[i].(valid := false);
      }
      scanEnable, readAllKeys, last := 0, 0, 0;
    }

    /** hci_con_handle_virt_alloc */
    method VirtAlloc() returns (h: word)
      modifies `last
      ensures h == old(last) && last == NextHandle(old(last))
    {
      h := last;
      last := (last + 1) & 0x0EFF;
    }

    method MapHandle(phys: word, virt: word) returns (ok: bool)
      modifies table
      ensures table[..] == Map(old(table[..]), phys, virt)
      ensures ok <==> !Full(old(table[..]))
    {
      ghost var was := table[..];
      var i := 0;
      while i < table.Length
        invariant 0 <= i <= table.Length
        invariant table[..] == was
        invariant forall k :: 0 <= k < i ==> was[k].valid
        invariant Map(was, phys, virt) == was[..i] + Map(was[i..], phys, virt)
      {
        MapStep(was, i, phys, virt);
        if !table[i].valid {
          table[i] := Slot(true, virt, phys);
          return true;
        }
        i := i + 1;
      }
      return false;
    }

    method UnmapHandle(virt: word) returns (ok: bool)
      modifies table
      ensures table[..] == UnmapVirt(old(table[..]), virt)
      ensures ok <==> GetPhys(old(table[..]), virt).Some?
    {
      ghost var was := table[..];
      var i := 0;
      while i < table.Length
        invariant 0 <= i <= table.Length
        invariant table[..] == was
        invariant GetPhys(was, virt) == GetPhys(was[i..], virt)
        invariant UnmapVirt(was, virt) == was[..i] + UnmapVirt(was[i..], virt)
      {
        UnmapStep(was, i, virt);
        assert was[i..][1..] == was[i + 1..];
        if table[i].valid && table[i].virt == virt {
          table[i] := table[i].(valid := false);
          return true;
        }
        i := i + 1;
      }
      return false;
    }

    method LookupVirt(phys: word) returns (r: Option<word>)
      ensures r == GetVirt(table[..], phys)
    {
      ghost var t := table[..];
      var i := 0;
      while i < table.Length
        invariant 0 <= i <= table.Length
        invariant GetVirt(t, phys) == GetVirt(t[i..], phys)
      {
        assert t[i..][1..] == t[i + 1..];
        if table[i].valid && table[i].phys == phys {
          return Some(table[i].virt);
        }
        i := i + 1;
      }
      return None;
    }

    method LookupPhys(virt: word) returns (r: Option<word>)
      ensures r == GetPhys(table[..], virt)
    {
      ghost var t := table[..];
      var i := 0;
      while i < table.Length
        invariant 0 <= i <= table.Length
        invariant GetPhys(t, virt) == GetPhys(t[i..], virt)
      {
        assert t[i..][1..] == t[i + 1..];
        if table[i].valid && table[i].virt == virt {
          return Some(table[i].phys);
        }
        i := i + 1;
      }
      return None;
    }

    method ReadLe16(data: array<byte>, at: nat) returns (w: word)
      requires at + 2 <= data.Length
      ensures w == WordAt(data[..], at)
    {
      w := (data[at] as word) | ((data[at + 1] as word) << 8);
    }

    method WriteLe16(data: array<byte>, at: nat, w: word)
      requires at + 2 <= data.Length
      modifies data
      ensures data[..] == Splice(old(data[..]), at, Le16(w))
    {
      data[at] := (w & 0xFF) as byte;
      data[at + 1] := (w >> 8) as byte;
      assert data[..] == Splice(old(data[..]), at, Le16(w));
    }

    /** hci_state_handle_hci_event_from_controller: translates the event in place. */
    method HandleEvent(data: array<byte>)
      requires EventExpected(View(), data[..]) && data as object != table as object
      modifies `last, table, data
      ensures View() == EventState(old(View()), old(data[..]))
      ensures data[..] == EventData(old(View()), old(data[..]))
    {
      var code := data[0];
      if code == CON_COMPL {
        ConnectionComplete(data);
      } else if code == DISCON_COMPL {
        DisconnectionComplete(data);
      } else if code in STATUS_FIRST_EVENTS {
        TranslateHandle(data, 3);
      } else if code in HANDLE_FIRST_EVENTS {
        TranslateHandle(data, 2);
      } else if code == COMMAND_COMPL {
        CommandComplete(data);
      } else if code == NUM_COMPL_PKTS {
        TranslateCompletedPackets(data);
      }
    }

    /** A successful connection gets a new virtual handle and a mapping. */
    method ConnectionComplete(data: array<byte>)
      requires EventExpected(View(), data[..]) && data as object != table as object
      requires data[0] == CON_COMPL
      modifies `last, table, data
      ensures View() == EventState(old(View()), old(data[..]))
      ensures data[..] == EventData(old(View()), old(data[..]))
    {
      if data[2] == 0 {
        var virt := VirtAlloc();
        var phys := ReadLe16(data, 3);
        var ok := MapHandle(phys, virt);
        assert ok;
        OnePut(data[..], 3, virt);
        WriteLe16(data, 3, virt);
      }
    }

    /** A successful disconnection loses its mapping, but is still reported under its name. */
    method DisconnectionComplete(data: array<byte>)
      requires EventExpected(View(), data[..]) && data as object != table as object
      requires data[0] == DISCON_COMPL
      modifies table, data
      ensures View() == EventState(old(View()), old(data[..]))
      ensures data[..] == EventData(old(View()), old(data[..]))
    {
      if data[2] == 0 {
        var phys := ReadLe16(data, 3);
        assert HandlesAt(data[..], EventHandles(data[..]))[0] == phys;
        var virt := LookupVirt(phys);
        var ok := UnmapHandle(virt.value);
        OnePut(data[..], 3, virt.value);
        WriteLe16(data, 3, virt.value);
        assert VirtsOf(old(table[..]), [phys]) == [virt.value];
      }
    }

    method CommandComplete(data: array<byte>)
      requires data.Length >= 5 && data as object != table as object
      requires WordAt(data[..], 3) == CMD_READ_STORED_LINK_KEY ==> data.Length >= 10
      modifies data
      ensures data[..] == PatchLinkKeys(View(), old(data[..]))
    {
      var opcode := ReadLe16(data, 3);
      if opcode == CMD_READ_STORED_LINK_KEY && readAllKeys != 0 {
        var max := ReadLe16(data, 6);
        var num := ReadLe16(data, 8);
        WriteLe16(data, 6, max + 2);
        WriteLe16(data, 8, num + 2);
      }
    }

    /** TRANSLATE_CON_HANDLE for an event: physical to virtual. */
    method TranslateHandle(data: array<byte>, at: nat)
      requires EventExpected(View(), data[..]) && data as object != table as object
      requires EventHandles(data[..]) == [at] && data[0] != CON_COMPL
      modifies data
      ensures data[..] == PutHandles(old(data[..]), [at], VirtsOf(table[..], HandlesAt(old(data[..]), [at])))
    {
      assert EventHandles(data[..])[0] == at;
      ghost var phys := WordAt(data[..], at);
      assert HandlesAt(data[..], EventHandles(data[..]))[0] == phys;
      OnePut(data[..], at, VirtOf(table[..], phys));
      assert VirtsOf(table[..], HandlesAt(data[..], [at])) == [VirtOf(table[..], phys)];
      TranslateAt(data, at);
    }

    /** NUM_COMPL_PKTS: every entry's handle is translated, the counts stay. */
    method TranslateCompletedPackets(data: array<byte>)
      requires data as object != table as object
      requires data.Length >= 3 && data.Length >= 3 + 4 * (data[2] as nat)
      requires AllMapped(table[..], HandlesAt(data[..], CompletedHandles(data[2] as nat)))
      modifies data
      ensures var os := CompletedHandles(old(data[2]) as nat);
              data[..] == PutHandles(old(data[..]), os, VirtsOf(table[..], HandlesAt(old(data[..]), os)))
    {
      ghost var d := data[..];
      var count: nat := data[2] as nat;
      ghost var os := CompletedHandles(count);
      ghost var hs := HandlesAt(d, os);
      ghost var vs := VirtsOf(table[..], hs);
      for i := 0 to count
        invariant data[..] == PutHandles(d, os[..i], vs[..i])
        invariant table[..] == old(table[..])
      {
        TranslateEntry(data, i, d, os, vs);
      }
      assert os[..count] == os && vs[..count] == vs;
    }

    method TranslateEntry(data: array<byte>, i: nat, ghost d: seq<byte>, ghost os: seq<nat>, ghost vs: seq<word>)
      requires data as object != table as object && data.Length == |d|
      requires |os| == |vs| && i < |os| && os[i] == 3 + 4 * i
      requires forall k :: 0 <= k < |os| ==> os[k] + 2 <= |d|
      requires forall k :: 0 <= k < i ==> os[k] + 2 <= os[i]
      requires GetVirt(table[..], WordAt(d, os[i])) == Some(vs[i])
      requires data[..] == PutHandles(d, os[..i], vs[..i])
      modifies data
      ensures data[..] == PutHandles(d, os[..i + 1], vs[..i + 1])
    {
      hide PutHandles, GetVirt, FromLe16;
      PutLeavesRest(d, os[..i], vs[..i], os[i]);
      TranslateAt(data, 3 + 4 * i);
      PutNext(d, os, vs, i);
    }

    /** Replaces the physical handle at the given offset by its virtual one. */
    method TranslateAt(data: array<byte>, at: nat)
      requires data as object != table as object && at + 2 <= data.Length
      requires GetVirt(table[..], WordAt(data[..], at)).Some?
      modifies data
      ensures data[..] == Splice(old(data[..]), at, Le16(VirtOf(table[..], WordAt(old(data[..]), at))))
    {
      var phys := ReadLe16(data, at);
      var virt := LookupVirt(phys);
      WriteLe16(data, at, virt.value);
    }

    lemma OnePut(d: seq<byte>, at: nat, w: word)
      requires at + 2 <= |d|
      ensures PutHandles(d, [at], [w]) == Splice(d, at, Le16(w))
    {
      assert PutHandles(d, [at][..0], [w][..0]) == d;
    }

    /** hci_state_handle_hci_cmd_from_host, for a command no fake Wiimote took; ok is false if an
        assertion fails, which leaves everything as it was. */
    method HandleCommand(data: array<byte>) returns (ok: bool)
      requires CommandWellFormed(data[..]) && data as object != table as object
      modifies this, table, data
      ensures ok <==> CommandExpected(old(View()), old(data[..]))
      ensures View() == if ok then CommandState(old(View()), old(data[..])) else old(View())
      ensures data[..] == if ok then CommandData(old(View()), old(data[..])) else old(data[..])
    {
      var opcode := ReadLe16(data, 0);
      NotHandleCommands();
      ok := !Unsupported(opcode);
      if opcode in HANDLE_COMMANDS {
        ok := TranslateCommand(data);
      } else if opcode == CMD_WRITE_SCAN_ENABLE {
        scanEnable := data[3];
      } else if opcode == CMD_RESET {
        ResetTracker();
      } else if opcode == CMD_READ_STORED_LINK_KEY {
        readAllKeys := data[9];
      }
    }

    lemma NotHandleCommands()
      ensures CMD_RESET !in HANDLE_COMMANDS && CMD_WRITE_SCAN_ENABLE !in HANDLE_COMMANDS
      ensures CMD_READ_STORED_LINK_KEY !in HANDLE_COMMANDS
      ensures CMD_CREATE_CON !in HANDLE_COMMANDS && CMD_HOST_NUM_COMPL_PKTS !in HANDLE_COMMANDS
    {
    }

    method TranslateCommand(data: array<byte>) returns (ok: bool)
      requires data.Length >= 5 && data as object != table as object
      modifies data
      ensures ok <==> GetPhys(table[..], WordAt(old(data[..]), 3)).Some?
      ensures data[..] ==
                if ok then Splice(old(data[..]), 3, Le16(PhysOf(table[..], WordAt(old(data[..]), 3)))) else old(data[..])
    {
      var virt := ReadLe16(data, 3);
      var phys := LookupPhys(virt);
      ok := phys.Some?;
      if ok {
        WriteLe16(data, 3, phys.value);
      }
    }

    method HandleAclIn(data: array<byte>)
      requires data.Length >= 4 && GetVirt(table[..], ConHandle(WordAt(data[..], 0))).Some?
      requires data as object != table as object
      modifies data
      ensures data[..] == AclIn(View(), old(data[..]))
    {
      var w := ReadLe16(data, 0);
      var virt := LookupVirt(ConHandle(w));
      WriteLe16(data, 0, MkConHandle(virt.value, PbFlag(w), BcFlag(w)));
    }

    /** hci_state_handle_acl_data_out_request_from_host, for a packet no fake Wiimote took. */
    method HandleAclOut(data: array<byte>)
      requires data.Length >= 4 && GetPhys(table[..], ConHandle(WordAt(data[..], 0))).Some?
      requires data as object != table as object
      modifies data
      ensures data[..] == AclOut(View(), old(data[..]))
    {
      var w := ReadLe16(data, 0);
      var phys := LookupPhys(ConHandle(w));
      WriteLe16(data, 0, MkConHandle(phys.value, PbFlag(w), BcFlag(w)));
    }
  }
}
