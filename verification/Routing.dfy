/**
 * Connection handles over whole runs. Real connections and fake Wiimotes draw virtual handles
 * from one counter (source/hci_state.c, source/fake_wiimote_mgr.c, source/fake_wiimote.c).
 *
 * The reference is a numbering: connection n is the n-th allocation since the last HCI reset.
 * The host calls it HandleOf(n); the dongle calls a real one conns[n]. The table and the
 * masked counter are shown to implement exactly this renaming.
 */
module Routing {
  import opened Bytes
  import opened HciState

  datatype Net = Net(
    hci: Hci,
    fakes: seq<Option<word>>,   // virtual handle of each connected fake Wiimote
    allocs: nat,                // virtual handles given out since the last reset
    conns: map<nat, word>,      // live real connections and their physical handles
    owner: seq<nat>,            // which connection a table slot maps
    numbers: seq<nat>)          // which connection a connected fake Wiimote is

  datatype Event =
    | FromController(event: seq<byte>)
    | FromHost(command: seq<byte>)
    | FakeUp(i: nat)            // the host accepted fake Wiimote i's connection
    | FakeDown(i: nat)          // fake Wiimote i disconnected

  predicate IsConnectionUp(data: seq<byte>) {
    |data| >= 5 && data[0] == CON_COMPL && data[2] == 0
  }

  predicate IsConnectionDown(data: seq<byte>) {
    |data| >= 5 && data[0] == DISCON_COMPL && data[2] == 0
  }

  predicate FakeLive(net: Net, n: nat) {
    exists i :: 0 <= i < |net.fakes| && i < |net.numbers| && net.fakes[i].Some? && net.numbers[i] == n
  }

  predicate Live(net: Net, n: nat) {
    n in net.conns || FakeLive(net, n)
  }

  /** No live connection is a multiple of 256 allocations old. */
  ghost predicate NextIsFresh(net: Net) {
    forall n: nat :: Live(net, n) ==> (net.allocs - n) % 0x100 != 0
  }

  function FirstFree(t: seq<Slot>): (i: nat)
    requires !Full(t)
    ensures i < |t| && !t[i].valid && forall k :: 0 <= k < i ==> t[k].valid
  {
    if !t[0].valid then 0
    else
      assert !Full(t[1..]) by {
        var i :| 0 <= i < |t| && !t[i].valid;
        assert !t[1..][i - 1].valid;
      }
      var j := FirstFree(t[1..]);
      assert forall k :: 1 <= k < j + 1 ==> t[k] == t[1..][k - 1];
      j + 1
  }

  // ---------------------------------------------------------------- what the environment may do

  /** The dongle announces only unmapped 12-bit handles and names only live connections; the
      host names only live connections. */
  ghost predicate Enabled(net: Net, e: Event)
  {
    match e
    case FromController(data) =>
      && EventWellFormed(data)
      && (if IsConnectionUp(data) then
            && WordAt(data, 3) < 0x1000 && WordAt(data, 3) !in net.conns.Values
            && |net.conns| < MAX_HCI_CONNECTIONS && NextIsFresh(net)
          else
            forall k :: 0 <= k < |EventHandles(data)| ==>
              HandlesAt(data, EventHandles(data))[k] in net.conns.Values)
    case FromHost(data) =>
      && CommandWellFormed(data) && !Unsupported(WordAt(data, 0))
      && (WordAt(data, 0) in HANDLE_COMMANDS ==> exists n :: n in net.conns && HandleOf(n) == WordAt(data, 3))
    case FakeUp(i) => i < |net.fakes| && net.fakes[i].None? && NextIsFresh(net)
    case FakeDown(i) => i < |net.fakes|
  }

  function Up(net: Net, phys: word): Net
    requires !Full(net.hci.table) && |net.owner| == |net.hci.table|
  {
    net.(hci := net.hci.(table := Map(net.hci.table, phys, net.hci.last), last := NextHandle(net.hci.last)),
         allocs := net.allocs + 1, conns := net.conns[net.allocs := phys],
         owner := net.owner[FirstFree(net.hci.table) := net.allocs])
  }

  function AfterFakeUp(net: Net, i: nat): Net
    requires i < |net.fakes| == |net.numbers|
  {
    net.(hci := net.hci.(last := NextHandle(net.hci.last)), fakes := net.fakes[i := Some(net.hci.last)],
         allocs := net.allocs + 1, numbers := net.numbers[i := net.allocs])
  }

  function Down(net: Net, phys: word): Net {
    net.(hci := net.hci.(table := UnmapVirt(net.hci.table, VirtOf(net.hci.table, phys))),
         conns := WithoutPhysical(net.conns, phys))
  }

  function WithoutPhysical(conns: map<nat, word>, phys: word): map<nat, word> {
    map n | n in conns && conns[n] != phys :: conns[n]
  }

  function WithoutNumber(conns: map<nat, word>, n: nat): map<nat, word> {
    map m | m in conns && m != n :: conns[m]
  }

  function Step(net: Net, e: Event): Net
    requires Inv(net) && Enabled(net, e)
  {
    match e
    case FromController(data) =>
      if IsConnectionUp(data) then RoomLeft(net); Up(net, WordAt(data, 3))
      else if IsConnectionDown(data) then Down(net, WordAt(data, 3))
      else net
    case FromHost(data) =>
      var net' := net.(hci := CommandState(net.hci, data));
      if WordAt(data, 0) == CMD_RESET then
        net'.(fakes := Fill(|net.fakes|, None), allocs := 0, conns := map[])
      else net'
    case FakeUp(i) => AfterFakeUp(net, i)
    case FakeDown(i) =>
      net.(fakes := net.fakes[i := None])
  }

  /** The tracker's part of a step is what its event handler does. */
  lemma StepFollowsHandler(net: Net, data: seq<byte>)
    requires Inv(net) && Enabled(net, FromController(data))
    ensures Step(net, FromController(data)).hci == EventState(net.hci, data)
  {
  }

  // ---------------------------------------------------------------- the invariant

  /** The table maps exactly the live real connections, each to its own name on either side. */
  ghost predicate Represents(t: seq<Slot>, owner: seq<nat>, conns: map<nat, word>) {
    && |t| == |owner| == MAX_HCI_CONNECTIONS
    && (forall i :: 0 <= i < |t| && t[i].valid ==>
          owner[i] in conns && t[i].phys == conns[owner[i]] && t[i].virt == HandleOf(owner[i]))
    && (forall i, j :: 0 <= i < j < |t| && t[i].valid && t[j].valid ==> owner[i] != owner[j])
    && (forall n :: n in conns ==> exists i :: 0 <= i < |t| && t[i].valid && owner[i] == n)
  }

  ghost predicate InjectiveConns(conns: map<nat, word>) {
    forall m, n :: m in conns && n in conns && m != n ==> conns[m] != conns[n]
  }

  ghost predicate DistinctHandles(net: Net) {
    forall m, n :: Live(net, m) && Live(net, n) && m != n ==> HandleOf(m) != HandleOf(n)
  }

  ghost predicate FakesNumbered(net: Net) {
    && |net.fakes| == |net.numbers| == MAX_FAKE_WIIMOTES
    && (forall i :: 0 <= i < |net.fakes| && net.fakes[i].Some? ==>
          net.fakes[i] == Some(HandleOf(net.numbers[i])) && net.numbers[i] !in net.conns)
    && (forall i, j :: 0 <= i < j < |net.fakes| && net.fakes[i].Some? && net.fakes[j].Some? ==>
          net.numbers[i] != net.numbers[j])
  }

  ghost predicate Inv(net: Net) {
    && net.hci.last == HandleOf(net.allocs)
    && Represents(net.hci.table, net.owner, net.conns)
    && InjectiveConns(net.conns)
    && (forall n :: n in net.conns ==> net.conns[n] < 0x1000)
    && (forall n: nat :: Live(net, n) ==> n < net.allocs)
    && DistinctHandles(net)
    && FakesNumbered(net)
  }

  function Boot(): (net: Net)
    ensures Inv(net)
  {
    Net(Reset(), Fill(MAX_FAKE_WIIMOTES, None), 0, map[], Fill(MAX_HCI_CONNECTIONS, 0), Fill(MAX_FAKE_WIIMOTES, 0))
  }

  // ---------------------------------------------------------------- lookups in the table

  lemma {:induction false} GetVirtFinds(t: seq<Slot>, i: nat)
    requires i < |t| && t[i].valid
    requires forall j :: 0 <= j < |t| && t[j].valid && t[j].phys == t[i].phys ==> j == i
    ensures GetVirt(t, t[i].phys) == Some(t[i].virt)
  {
    if i > 0 {
      assert forall j :: 0 <= j < |t[1..]| ==> t[1..][j] == t[j + 1];
      GetVirtFinds(t[1..], i - 1);
    }
  }

  lemma {:induction false} GetPhysFinds(t: seq<Slot>, i: nat)
    requires i < |t| && t[i].valid
    requires forall j :: 0 <= j < |t| && t[j].valid && t[j].virt == t[i].virt ==> j == i
    ensures GetPhys(t, t[i].virt) == Some(t[i].phys)
    ensures UnmapVirt(t, t[i].virt) == t[i := t[i].(valid := false)]
  {
    if i > 0 {
      assert forall j :: 0 <= j < |t[1..]| ==> t[1..][j] == t[j + 1];
      GetPhysFinds(t[1..], i - 1);
      assert t == [t[0]] + t[1..];
    }
  }

  lemma {:induction false} GetVirtMisses(t: seq<Slot>, phys: word)
    requires forall j :: 0 <= j < |t| && t[j].valid ==> t[j].phys != phys
    ensures GetVirt(t, phys) == None
  {
    if t != [] {
      assert forall j :: 0 <= j < |t[1..]| ==> t[1..][j] == t[j + 1];
      GetVirtMisses(t[1..], phys);
    }
  }

  lemma {:induction false} GetPhysMisses(t: seq<Slot>, virt: word)
    requires forall j :: 0 <= j < |t| && t[j].valid ==> t[j].virt != virt
    ensures GetPhys(t, virt) == None
  {
    if t != [] {
      assert forall j :: 0 <= j < |t[1..]| ==> t[1..][j] == t[j + 1];
      GetPhysMisses(t[1..], virt);
    }
  }

  lemma {:induction false} MapFillsFirstFree(t: seq<Slot>, phys: word, virt: word)
    requires !Full(t)
    ensures Map(t, phys, virt) == t[FirstFree(t) := Slot(true, virt, phys)]
  {
    if t[0].valid {
      assert t == [t[0]] + t[1..];
      var i :| 0 <= i < |t| && !t[i].valid;
      assert !t[1..][i - 1].valid;
      MapFillsFirstFree(t[1..], phys, virt);
    }
  }

  lemma {:induction false} DistinctFit(s: seq<nat>, keys: set<nat>)
    requires forall i :: 0 <= i < |s| ==> s[i] in keys
    requires forall i, j :: 0 <= i < j < |s| ==> s[i] != s[j]
    ensures |s| <= |keys|
  {
    if s != [] {
      DistinctFit(s[1..], keys - {s[0]});
    }
  }

  /** Fewer than 32 live connections leave a free slot: the mapping assertion cannot fail. */
  lemma RoomLeft(net: Net)
    requires Inv(net) && |net.conns| < MAX_HCI_CONNECTIONS
    ensures !Full(net.hci.table) && |net.owner| == |net.hci.table|
  {
    if Full(net.hci.table) {
      DistinctFit(net.owner, net.conns.Keys);
    }
  }

  lemma {:induction false} KeysFit(keys: set<nat>, s: seq<nat>)
    requires forall n :: n in keys ==> n in s
    ensures |keys| <= |s|
  {
    if s != [] {
      KeysFit(keys - {s[0]}, s[1..]);
      assert |keys| <= |keys - {s[0]}| + 1;
    }
  }

  /** And a free slot means fewer than 32. */
  lemma FullIffAllLive(net: Net)
    requires Inv(net)
    ensures Full(net.hci.table) <==> |net.conns| >= 32
  {
    if |net.conns| < MAX_HCI_CONNECTIONS {
      RoomLeft(net);
    } else if !Full(net.hci.table) {
      var i :| 0 <= i < |net.hci.table| && !net.hci.table[i].valid;
      var others := net.owner[..i] + net.owner[i + 1..];
      forall n | n in net.conns ensures n in others {
        var j :| 0 <= j < |net.hci.table| && net.hci.table[j].valid && net.owner[j] == n;
        assert n == if j < i then others[j] else others[j - 1];
      }
      KeysFit(net.conns.Keys, others);
    }
  }

  /** The table implements the reference renaming in both directions, and nothing else. */
  lemma TableRenames(net: Net, n: nat)
    requires Inv(net) && n in net.conns
    ensures GetVirt(net.hci.table, net.conns[n]) == Some(HandleOf(n))
    ensures GetPhys(net.hci.table, HandleOf(n)) == Some(net.conns[n])
    ensures HandleOf(n) < 0x1000
  {
    var t := net.hci.table;
    var i :| 0 <= i < |t| && t[i].valid && net.owner[i] == n;
    forall j | 0 <= j < |t| && t[j].valid && j != i
      ensures t[j].phys != t[i].phys && t[j].virt != t[i].virt
    {
      assert net.owner[j] != n;
      assert Live(net, net.owner[j]) && Live(net, n);
    }
    GetVirtFinds(t, i);
    GetPhysFinds(t, i);
    CounterWalksHandles(n);
  }

  // ---------------------------------------------------------------- every step keeps it

  /** Then the next handle is nobody else's. */
  lemma NextHandleFresh(net: Net, n: nat)
    requires Inv(net) && NextIsFresh(net) && Live(net, n)
    ensures HandleOf(n) != HandleOf(net.allocs)
  {
    HandleCollision(n, net.allocs);
    ModDifference(net.allocs, n);
  }

  lemma MapRepresents(t: seq<Slot>, owner: seq<nat>, conns: map<nat, word>, phys: word, n: nat)
    requires Represents(t, owner, conns) && !Full(t) && n !in conns
    ensures Represents(Map(t, phys, HandleOf(n)), owner[FirstFree(t) := n], conns[n := phys])
  {
    var f := FirstFree(t);
    MapFillsFirstFree(t, phys, HandleOf(n));
    var t', owner', conns' := t[f := Slot(true, HandleOf(n), phys)], owner[f := n], conns[n := phys];
    forall m | m in conns' ensures exists i :: 0 <= i < |t'| && t'[i].valid && owner'[i] == m {
      if m == n {
        assert t'[f].valid && owner'[f] == m;
      } else {
        var i :| 0 <= i < |t| && t[i].valid && owner[i] == m;
        assert t'[i].valid && owner'[i] == m;
      }
    }
  }

  lemma UnmapRepresents(t: seq<Slot>, owner: seq<nat>, conns: map<nat, word>, n: nat)
    requires Represents(t, owner, conns) && n in conns
    requires forall m :: m in conns && m != n ==> HandleOf(m) != HandleOf(n)
    ensures Represents(UnmapVirt(t, HandleOf(n)), owner, WithoutNumber(conns, n))
  {
    var i :| 0 <= i < |t| && t[i].valid && owner[i] == n;
    forall j | 0 <= j < |t| && t[j].valid && t[j].virt == t[i].virt ensures j == i {
      assert owner[j] in conns;
    }
    GetPhysFinds(t, i);
    RemoveSlot(t, owner, conns, n, i);
  }

  lemma RemoveSlot(t: seq<Slot>, owner: seq<nat>, conns: map<nat, word>, n: nat, i: nat)
    requires Represents(t, owner, conns) && n in conns
    requires i < |t| && t[i].valid && owner[i] == n
    ensures Represents(t[i := t[i].(valid := false)], owner, WithoutNumber(conns, n))
  {
    var t' := t[i := t[i].(valid := false)];
    forall m | m in conns && m != n ensures exists j :: 0 <= j < |t'| && t'[j].valid && owner[j] == m {
      var j :| 0 <= j < |t| && t[j].valid && owner[j] == m;
      assert t'[j].valid;
    }
  }

  lemma UpTable(net: Net, phys: word)
    requires Inv(net) && !Full(net.hci.table)
    ensures Represents(Up(net, phys).hci.table, Up(net, phys).owner, Up(net, phys).conns)
  {
    NextNumberUnused(net);
    MapRepresents(net.hci.table, net.owner, net.conns, phys, net.allocs);
  }

  lemma NextNumberUnused(net: Net)
    requires Inv(net)
    ensures !Live(net, net.allocs)
  {
    assert Live(net, net.allocs) ==> net.allocs < net.allocs;
  }

  lemma UpKeepsInv(net: Net, phys: word)
    requires Inv(net) && NextIsFresh(net) && !Full(net.hci.table)
    requires phys < 0x1000 && phys !in net.conns.Values
    ensures Inv(Up(net, phys))
  {
    UpTable(net, phys);
    OneMoreConnection(net, Up(net, phys), phys);
  }

  lemma OneMoreConnection(net: Net, net': Net, phys: word)
    requires Inv(net) && NextIsFresh(net) && Represents(net'.hci.table, net'.owner, net'.conns)
    requires phys < 0x1000 && phys !in net.conns.Values && net'.conns == net.conns[net.allocs := phys]
    requires net'.hci.last == NextHandle(net.hci.last) && net'.allocs == net.allocs + 1
    requires net'.fakes == net.fakes && net'.numbers == net.numbers
    ensures Inv(net')
  {
    NewPhysical(net.conns, net.allocs, phys);
    forall n: nat | Live(net', n) ensures n == net.allocs || Live(net, n) {
      if FakeLive(net', n) {
        var i :| 0 <= i < |net'.fakes| && net'.fakes[i].Some? && net'.numbers[i] == n;
        assert net.fakes[i].Some? && net.numbers[i] == n;
      }
    }
    LiveAfterAlloc(net, net');
    FakesStayNumbered(net, net');
  }

  lemma NewPhysical(conns: map<nat, word>, n: nat, phys: word)
    requires InjectiveConns(conns) && phys !in conns.Values
    ensures InjectiveConns(conns[n := phys])
  {
    assert forall m :: m in conns ==> conns[m] in conns.Values;
  }

  lemma FakesStayNumbered(net: Net, net': Net)
    requires Inv(net) && net'.fakes == net.fakes && net'.numbers == net.numbers
    requires forall n :: n in net'.conns ==> n in net.conns || n == net.allocs
    ensures FakesNumbered(net')
  {
    assert forall i :: 0 <= i < |net.fakes| && net.fakes[i].Some? ==> Live(net, net.numbers[i]);
  }

  /** A fresh number joins the live ones without a clash. */
  lemma LiveAfterAlloc(net: Net, net': Net)
    requires Inv(net) && NextIsFresh(net) && net'.allocs == net.allocs + 1
    requires forall n :: Live(net', n) ==> n == net.allocs || Live(net, n)
    ensures forall n: nat :: Live(net', n) ==> n < net'.allocs
    ensures DistinctHandles(net')
  {
    forall m, n | Live(net', m) && Live(net', n) && m != n ensures HandleOf(m) != HandleOf(n) {
      if m == net.allocs {
        NextHandleFresh(net, n);
      } else if n == net.allocs {
        NextHandleFresh(net, m);
      }
    }
  }

  lemma DownTable(net: Net, n: nat)
    requires Inv(net) && n in net.conns
    ensures var net' := Down(net, net.conns[n]); Represents(net'.hci.table, net'.owner, net'.conns)
  {
    TableRenames(net, n);
    assert forall m :: m in net.conns ==> Live(net, m);
    UnmapRepresents(net.hci.table, net.owner, net.conns, n);
    OnlyOneGone(net.conns, n);
  }

  lemma DownKeepsInv(net: Net, n: nat)
    requires Inv(net) && n in net.conns
    ensures Inv(Down(net, net.conns[n]))
  {
    DownTable(net, n);
    FewerConnections(net, Down(net, net.conns[n]));
  }

  lemma OnlyOneGone(conns: map<nat, word>, n: nat)
    requires InjectiveConns(conns) && n in conns
    ensures WithoutPhysical(conns, conns[n]) == WithoutNumber(conns, n)
  {
  }

  lemma FewerConnections(net: Net, net': Net)
    requires Inv(net) && Represents(net'.hci.table, net'.owner, net'.conns)
    requires forall m :: m in net'.conns ==> m in net.conns && net'.conns[m] == net.conns[m]
    requires net'.hci.last == net.hci.last && net'.allocs == net.allocs
    requires net'.fakes == net.fakes && net'.numbers == net.numbers
    ensures Inv(net')
  {
    forall m: nat | Live(net', m) ensures Live(net, m) {
      if FakeLive(net', m) {
        var i :| 0 <= i < |net'.fakes| && net'.fakes[i].Some? && net'.numbers[i] == m;
        assert net.fakes[i].Some? && net.numbers[i] == m;
      }
    }
    FakesStayNumbered(net, net');
  }

  /** The connection a disconnection event is about. */
  lemma DownNamesLive(net: Net, data: seq<byte>)
    requires Inv(net) && Enabled(net, FromController(data)) && IsConnectionDown(data)
    ensures WordAt(data, 3) in net.conns.Values
  {
    assert HandlesAt(data, EventHandles(data))[0] == WordAt(data, 3);
  }

  lemma FakeUpKeepsInv(net: Net, i: nat)
    requires Inv(net) && Enabled(net, FakeUp(i))
    ensures Inv(Step(net, FakeUp(i)))
  {
    var net' := Step(net, FakeUp(i));
    forall n | FakeLive(net', n) ensures n == net.allocs || Live(net, n) {
      var j :| 0 <= j < |net'.fakes| && net'.fakes[j].Some? && net'.numbers[j] == n;
      if j != i {
        assert net.fakes[j].Some? && net.numbers[j] == n;
      }
    }
    LiveAfterAlloc(net, net');
    assert Live(net, net.allocs) ==> net.allocs < net.allocs;
    forall j | 0 <= j < |net.fakes| && net.fakes[j].Some? ensures net.numbers[j] != net.allocs {
      assert Live(net, net.numbers[j]);
    }
  }

  lemma FakeDownKeepsInv(net: Net, i: nat)
    requires Inv(net) && i < |net.fakes|
    ensures Inv(Step(net, FakeDown(i)))
  {
    var net' := Step(net, FakeDown(i));
    forall n | FakeLive(net', n) ensures FakeLive(net, n) {
      var j :| 0 <= j < |net'.fakes| && net'.fakes[j].Some? && net'.numbers[j] == n;
      assert net.fakes[j].Some? && net.numbers[j] == n;
    }
    assert forall n :: Live(net', n) ==> Live(net, n);
  }

  lemma HostCommandKeepsInv(net: Net, data: seq<byte>)
    requires Inv(net) && Enabled(net, FromHost(data))
    ensures Inv(Step(net, FromHost(data)))
  {
    var net' := Step(net, FromHost(data));
    if WordAt(data, 0) == CMD_RESET {
      assert forall n :: !Live(net', n);
    } else {
      assert forall n :: Live(net', n) <==> Live(net, n);
    }
  }

  /** Any mix of connections, disconnections, accepts, fake disconnections and resets. */
  lemma StepKeepsInv(net: Net, e: Event)
    requires Inv(net) && Enabled(net, e)
    ensures Inv(Step(net, e))
  {
    match e
    case FromController(data) =>
      if IsConnectionUp(data) {
        RoomLeft(net);
        UpKeepsInv(net, WordAt(data, 3));
      } else if IsConnectionDown(data) {
        DownNamesLive(net, data);
        var n :| n in net.conns && net.conns[n] == WordAt(data, 3);
        DownKeepsInv(net, n);
      }
    case FromHost(data) => HostCommandKeepsInv(net, data);
    case FakeUp(i) => FakeUpKeepsInv(net, i);
    case FakeDown(i) => FakeDownKeepsInv(net, i);
  }

  ghost predicate Legal(net: Net, es: seq<Event>)
    requires Inv(net)
    decreases |es|
  {
    es == [] || (Enabled(net, es[0]) && (StepKeepsInv(net, es[0]); Legal(Step(net, es[0]), es[1..])))
  }

  ghost function Run(net: Net, es: seq<Event>): (r: Net)
    requires Inv(net) && Legal(net, es)
    ensures Inv(r)
    decreases |es|
  {
    if es == [] then net
    else
      StepKeepsInv(net, es[0]);
      Run(Step(net, es[0]), es[1..])
  }

  // ---------------------------------------------------------------- the renaming is consistent

  /** What the dongle calls its connections now, extended by the one an event announces. */
  function NamesAfter(net: Net, data: seq<byte>): map<nat, word> {
    if IsConnectionUp(data) then net.conns[net.allocs := WordAt(data, 3)] else net.conns
  }

  /** Every handle an event names is renamed from the dongle's to the host's name of the same
      connection, and nothing else in the packet changes (but the link key count). */
  lemma EventsKeepTheirConnection(net: Net, data: seq<byte>, k: nat, n: nat)
    requires Inv(net) && Enabled(net, FromController(data))
    requires k < |EventHandles(data)| && n in NamesAfter(net, data)
    requires NamesAfter(net, data)[n] == WordAt(data, EventHandles(data)[k])
    ensures WordAt(EventData(net.hci, data), EventHandles(data)[k]) == HandleOf(n)
  {
    EventDataHandle(net.hci, data, k);
    if IsConnectionUp(data) {
      NewestName(net, WordAt(data, 3), n);
    } else {
      TableRenames(net, n);
    }
  }

  lemma NewestName(net: Net, phys: word, n: nat)
    requires Inv(net) && phys !in net.conns.Values
    requires n in net.conns[net.allocs := phys] && net.conns[net.allocs := phys][n] == phys
    ensures n == net.allocs && net.hci.last == HandleOf(n)
  {
    assert n in net.conns ==> net.conns[n] in net.conns.Values;
  }

  /** A physical handle is in the table exactly if it belongs to a live connection. */
  lemma MappedIffLive(net: Net, phys: word)
    requires Inv(net)
    ensures GetVirt(net.hci.table, phys).Some? <==> phys in net.conns.Values
  {
    if phys in net.conns.Values {
      var n :| n in net.conns && net.conns[n] == phys;
      TableRenames(net, n);
    } else {
      forall j | 0 <= j < |net.hci.table| && net.hci.table[j].valid ensures net.hci.table[j].phys != phys {
        assert net.conns[net.owner[j]] in net.conns.Values;
      }
      GetVirtMisses(net.hci.table, phys);
    }
  }

  /** A virtual handle is in the table exactly if it names a live connection of the dongle. */
  lemma NamedIffLive(net: Net, virt: word)
    requires Inv(net)
    ensures GetPhys(net.hci.table, virt).Some? <==> exists n :: n in net.conns && HandleOf(n) == virt
  {
    if n :| n in net.conns && HandleOf(n) == virt {
      TableRenames(net, n);
    } else {
      GetPhysMisses(net.hci.table, virt);
    }
  }

  /** The handler's assertions hold exactly if a new connection finds a free slot, and any other
      event names live connections only. */
  lemma EventsAreExpected(net: Net, data: seq<byte>)
    requires Inv(net) && EventWellFormed(data)
    ensures EventExpected(net.hci, data) <==>
            if IsConnectionUp(data) then |net.conns| < 32
            else forall k :: 0 <= k < |EventHandles(data)| ==>
                   HandlesAt(data, EventHandles(data))[k] in net.conns.Values
  {
    hide Inv, GetVirt;
    var hs := HandlesAt(data, EventHandles(data));
    if IsConnectionUp(data) {
      FullIffAllLive(net);
    } else {
      forall k | 0 <= k < |hs| ensures GetVirt(net.hci.table, hs[k]).Some? <==> hs[k] in net.conns.Values {
        MappedIffLive(net, hs[k]);
      }
    }
  }

  /** The completion of a synchronous connection announces a new handle, successful or not, but is
      translated like an event about an old one: the lookup always fails. */
  lemma SynchronousConnectionFails(net: Net, data: seq<byte>)
    requires Inv(net) && EventWellFormed(data) && data[0] == SCO_CON_COMPL && |data| >= 5
    requires WordAt(data, 3) !in net.conns.Values
    ensures !EventExpected(net.hci, data)
  {
    hide Inv;
    EventsAreExpected(net, data);
    assert HandlesAt(data, EventHandles(data))[0] == WordAt(data, 3);
  }

  lemma EventsKeepOtherBytes(net: Net, data: seq<byte>, i: nat)
    requires Inv(net) && Enabled(net, FromController(data))
    requires i < |data| && Untouched(EventHandles(data), i) && data[0] != COMMAND_COMPL
    ensures EventData(net.hci, data)[i] == data[i]
  {
    var os := EventHandles(data);
    var hs := HandlesAt(data, os);
    PutHandlesFrame(data, os, if data[0] == CON_COMPL then Fill(|hs|, net.hci.last) else VirtsOf(net.hci.table, hs), i);
  }

  lemma CommandsKeepTheirConnection(net: Net, data: seq<byte>, n: nat)
    requires Inv(net) && Enabled(net, FromHost(data))
    requires WordAt(data, 0) in HANDLE_COMMANDS && n in net.conns && HandleOf(n) == WordAt(data, 3)
    ensures CommandExpected(net.hci, data)
    ensures WordAt(CommandData(net.hci, data), 3) == net.conns[n]
    ensures CommandData(net.hci, data)[..3] == data[..3] && CommandData(net.hci, data)[5..] == data[5..]
  {
    TableRenames(net, n);
    CommandDataHandle(net.hci, data);
  }

  /** ACL data of live connection n: the dongle's name on one side, the host's on the other, in
      both directions, and the round trip restores the packet. */
  lemma AclKeepsItsConnection(net: Net, data: seq<byte>, n: nat)
    requires Inv(net) && n in net.conns && |data| >= 4
    ensures ConHandle(WordAt(data, 0)) == net.conns[n] ==>
              && ConHandle(WordAt(AclIn(net.hci, data), 0)) == HandleOf(n)
              && AclOut(net.hci, AclIn(net.hci, data)) == data
    ensures ConHandle(WordAt(data, 0)) == HandleOf(n) ==>
              ConHandle(WordAt(AclOut(net.hci, data), 0)) == net.conns[n]
  {
    TableRenames(net, n);
    var w := WordAt(data, 0);
    if ConHandle(w) == net.conns[n] {
      AclInThenOut(net.hci, data);
      RenameKeepsFlags(w, HandleOf(n));
      Splice16(data, 0, Rename(w, HandleOf(n)));
    }
    if ConHandle(w) == HandleOf(n) {
      RenameKeepsFlags(w, net.conns[n]);
      Splice16(data, 0, Rename(w, net.conns[n]));
    }
  }

  /** A live connection keeps both its names until it goes down or the stack is reset. */
  lemma {:induction false} NamesAreStable(net: Net, es: seq<Event>, n: nat)
    requires Inv(net) && Legal(net, es) && n in net.conns
    requires forall i :: 0 <= i < |es| ==>
               && (es[i].FromHost? && |es[i].command| >= 2 ==> WordAt(es[i].command, 0) != CMD_RESET)
               && (es[i].FromController? && IsConnectionDown(es[i].event) ==> WordAt(es[i].event, 3) != net.conns[n])
    ensures n in Run(net, es).conns && Run(net, es).conns[n] == net.conns[n]
    ensures GetVirt(Run(net, es).hci.table, net.conns[n]) == Some(HandleOf(n))
    decreases |es|
  {
    hide Inv, Enabled, Step, GetVirt, IsConnectionDown, WordAt, HandleOf;
    if es == [] {
      TableRenames(net, n);
    } else {
      StepKeepsInv(net, es[0]);
      ConnectionStays(net, es[0], n);
      NamesAreStable(Step(net, es[0]), es[1..], n);
    }
  }

  lemma ConnectionStays(net: Net, e: Event, n: nat)
    requires Inv(net) && Enabled(net, e) && n in net.conns
    requires e.FromHost? && |e.command| >= 2 ==> WordAt(e.command, 0) != CMD_RESET
    requires e.FromController? && IsConnectionDown(e.event) ==> WordAt(e.event, 3) != net.conns[n]
    ensures n in Step(net, e).conns && Step(net, e).conns[n] == net.conns[n]
  {
    hide WordAt, HandleOf, Represents, DistinctHandles, FakesNumbered, CommandState;
    assert Live(net, n);
  }

  // ---------------------------------------------------------------- routing of ACL data

  datatype Route = ToFake(i: nat) | ToController(packet: seq<byte>) | Unroutable

  /** The handler for ACL data from the host: fake Wiimotes are asked first, in order. */
  function FirstFakeWith(fakes: seq<Option<word>>, h: word): Option<nat> {
    if fakes == [] then None
    else if fakes[0] == Some(h) then Some(0)
    else match FirstFakeWith(fakes[1..], h) case Some(i) => Some(i + 1) case None => None
  }

  function RouteAcl(net: Net, data: seq<byte>): Route
    requires |data| >= 4
  {
    var virt := ConHandle(WordAt(data, 0));
    match FirstFakeWith(net.fakes, virt)
    case Some(i) => ToFake(i)
    case None => if GetPhys(net.hci.table, virt).Some? then ToController(AclOut(net.hci, data)) else Unroutable
  }

  lemma {:induction false} FirstFakeFinds(fakes: seq<Option<word>>, h: word, i: nat)
    requires i < |fakes| && fakes[i] == Some(h) && forall j :: 0 <= j < |fakes| && fakes[j] == Some(h) ==> j == i
    ensures FirstFakeWith(fakes, h) == Some(i)
  {
    if i > 0 {
      assert forall j :: 0 <= j < |fakes[1..]| ==> fakes[1..][j] == fakes[j + 1];
      FirstFakeFinds(fakes[1..], h, i - 1);
    }
  }

  lemma {:induction false} FirstFakeMisses(fakes: seq<Option<word>>, h: word)
    requires forall j :: 0 <= j < |fakes| ==> fakes[j] != Some(h)
    ensures FirstFakeWith(fakes, h) == None
  {
    if fakes != [] {
      assert forall j :: 0 <= j < |fakes[1..]| ==> fakes[1..][j] == fakes[j + 1];
      FirstFakeMisses(fakes[1..], h);
    }
  }

  /** Each packet for a live handle has one destination: the one fake Wiimote of that handle, or
      the dongle under the one physical handle of that connection. */
  lemma RoutingIsUnambiguous(net: Net, data: seq<byte>, n: nat)
    requires Inv(net) && Live(net, n) && |data| >= 4 && ConHandle(WordAt(data, 0)) == HandleOf(n)
    ensures HandleOf(n) <= 0x0EFF
    ensures n in net.conns ==>
              && RouteAcl(net, data) == ToController(AclOut(net.hci, data))
              && ConHandle(WordAt(AclOut(net.hci, data), 0)) == net.conns[n]
    ensures forall i :: 0 <= i < |net.fakes| && net.fakes[i].Some? && net.numbers[i] == n ==>
              RouteAcl(net, data) == ToFake(i) && GetPhys(net.hci.table, HandleOf(n)) == None
  {
    CounterWalksHandles(n);
    if n in net.conns {
      forall j | 0 <= j < |net.fakes| ensures net.fakes[j] != Some(HandleOf(n)) {
        if net.fakes[j].Some? {
          assert Live(net, net.numbers[j]);
        }
      }
      FirstFakeMisses(net.fakes, HandleOf(n));
      TableRenames(net, n);
      AclKeepsItsConnection(net, data, n);
    }
    forall i | 0 <= i < |net.fakes| && net.fakes[i].Some? && net.numbers[i] == n
      ensures RouteAcl(net, data) == ToFake(i) && GetPhys(net.hci.table, HandleOf(n)) == None
    {
      forall j | 0 <= j < |net.fakes| && net.fakes[j] == Some(HandleOf(n)) ensures j == i {
        assert Live(net, net.numbers[j]) && Live(net, n);
      }
      FirstFakeFinds(net.fakes, HandleOf(n), i);
      var t := net.hci.table;
      forall j | 0 <= j < |t| && t[j].valid ensures t[j].virt != HandleOf(n) {
        assert Live(net, net.owner[j]) && net.owner[j] != n;
      }
      GetPhysMisses(t, HandleOf(n));
    }
  }

  /** Routing stays unambiguous in every state of every legal run from boot. */
  lemma RoutingOverRuns(es: seq<Event>, data: seq<byte>, n: nat)
    requires Legal(Boot(), es)
    requires Live(Run(Boot(), es), n) && |data| >= 4 && ConHandle(WordAt(data, 0)) == HandleOf(n)
    ensures RouteAcl(Run(Boot(), es), data) != Unroutable
    ensures n in Run(Boot(), es).conns <==> RouteAcl(Run(Boot(), es), data).ToController?
  {
    var net := Run(Boot(), es);
    RoutingIsUnambiguous(net, data, n);
    if n !in net.conns {
      assert FakeLive(net, n);
      var i :| 0 <= i < |net.fakes| && net.fakes[i].Some? && net.numbers[i] == n;
      assert RouteAcl(net, data) == ToFake(i);
    }
  }

  // ---------------------------------------------------------------- when the counter wraps around

  /** The next handle is fresh exactly when no live connection is a multiple of 256 allocations
      old; the counter itself never checks. */
  lemma FreshIffNoMultiple(net: Net)
    requires Inv(net)
    ensures (forall n :: Live(net, n) ==> HandleOf(n) != net.hci.last) <==> NextIsFresh(net)
  {
    forall n | Live(net, n) ensures HandleOf(n) == net.hci.last <==> (net.allocs - n) % 0x100 == 0 {
      HandleCollision(n, net.allocs);
      ModDifference(net.allocs, n);
    }
  }

  lemma ModDifference(a: nat, b: nat)
    requires b <= a
    ensures (a - b) % 0x100 == 0 <==> a % 0x100 == b % 0x100
  {
  }

  lemma ClashBreaksInv(net: Net, net': Net, n: nat)
    requires Inv(net) && Live(net, n) && (net.allocs - n) % 0x100 == 0
    requires Live(net', n) && Live(net', net.allocs)
    ensures !Inv(net')
  {
    HandleCollision(n, net.allocs);
    ModDifference(net.allocs, n);
  }

  /** So accepting a fake Wiimote keeps the handles apart exactly if the next one is fresh, */
  lemma AcceptIsSafeIff(net: Net, i: nat)
    requires Inv(net) && i < |net.fakes| && net.fakes[i].None?
    ensures Inv(AfterFakeUp(net, i)) <==> NextIsFresh(net)
  {
    hide Represents, InjectiveConns, DistinctHandles;
    var net' := AfterFakeUp(net, i);
    if NextIsFresh(net) {
      FakeUpKeepsInv(net, i);
    } else {
      var n: nat :| Live(net, n) && (net.allocs - n) % 0x100 == 0;
      assert net'.fakes[i].Some? && net'.numbers[i] == net.allocs;
      if n !in net.conns {
        var j :| 0 <= j < |net.fakes| && net.fakes[j].Some? && net.numbers[j] == n;
        assert net'.fakes[j].Some? && net'.numbers[j] == n;
      }
      ClashBreaksInv(net, net', n);
    }
  }

  /** and so does a connection of the dongle. */
  lemma ConnectionIsSafeIff(net: Net, phys: word)
    requires Inv(net) && phys < 0x1000 && phys !in net.conns.Values && |net.conns| < MAX_HCI_CONNECTIONS
    ensures !Full(net.hci.table) && (Inv(Up(net, phys)) <==> NextIsFresh(net))
  {
    hide Represents, InjectiveConns, DistinctHandles;
    RoomLeft(net);
    var net' := Up(net, phys);
    if NextIsFresh(net) {
      UpKeepsInv(net, phys);
    } else {
      var n: nat :| Live(net, n) && (net.allocs - n) % 0x100 == 0;
      if n !in net.conns {
        assert FakeLive(net', n) by {
          var j :| 0 <= j < |net.fakes| && net.fakes[j].Some? && net.numbers[j] == n;
          assert net'.fakes[j].Some? && net'.numbers[j] == n;
        }
      }
      ClashBreaksInv(net, net', n);
    }
  }

  /** One connection of the dongle, number 0, and nothing else live. */
  predicate OnlyFirst(net: Net, phys: word) {
    net.conns == map[0 := phys] && forall i :: 0 <= i < |net.fakes| ==> net.fakes[i].None?
  }

  lemma OnlyFirstLive(net: Net, phys: word, n: nat)
    requires OnlyFirst(net, phys)
    ensures Live(net, n) <==> n == 0
  {
  }

  /** Fake Wiimote 0 connects and disconnects until 256 handles have been given out. */
  lemma {:induction false} WearOut(net: Net, phys: word) returns (es: seq<Event>)
    requires Inv(net) && OnlyFirst(net, phys) && net.allocs <= 0x100
    ensures Legal(net, es) && OnlyFirst(Run(net, es), phys) && Run(net, es).allocs == 0x100
    decreases 0x100 - net.allocs
  {
    if net.allocs == 0x100 {
      es := [];
    } else {
      hide Inv, Enabled, Step, OnlyFirst;
      UpAndDown(net, phys);
      var rest := WearOut(Step(Step(net, FakeUp(0)), FakeDown(0)), phys);
      TwoMore(net, FakeUp(0), FakeDown(0), rest);
      es := [FakeUp(0), FakeDown(0)] + rest;
    }
  }

  lemma UpAndDown(net: Net, phys: word)
    requires Inv(net) && OnlyFirst(net, phys) && net.allocs < 0x100
    ensures Enabled(net, FakeUp(0)) && Inv(Step(net, FakeUp(0)))
    ensures var up := Step(net, FakeUp(0));
            Enabled(up, FakeDown(0)) && Inv(Step(up, FakeDown(0)))
            && OnlyFirst(Step(up, FakeDown(0)), phys) && Step(up, FakeDown(0)).allocs == net.allocs + 1
  {
    hide Represents, InjectiveConns, DistinctHandles;
    forall n: nat | Live(net, n) ensures n == 0 && n < net.allocs { OnlyFirstLive(net, phys, n); }
    assert NextIsFresh(net);
    FakeUpKeepsInv(net, 0);
    FakeDownKeepsInv(Step(net, FakeUp(0)), 0);
  }

  lemma TwoMore(net: Net, e: Event, e': Event, rest: seq<Event>)
    requires Inv(net) && Enabled(net, e) && Inv(Step(net, e)) && Enabled(Step(net, e), e')
    requires Inv(Step(Step(net, e), e')) && Legal(Step(Step(net, e), e'), rest)
    ensures Legal(net, [e, e'] + rest) && Run(net, [e, e'] + rest) == Run(Step(Step(net, e), e'), rest)
  {
    hide Inv, Enabled, Step;
    var es := [e, e'] + rest;
    assert es[1..] == [e'] + rest && es[1..][1..] == rest;
  }

  /** A connection complete event of the dongle. */
  function ConnectionUp(phys: word): (data: seq<byte>)
    ensures |data| == 5 && EventWellFormed(data) && IsConnectionUp(data) && WordAt(data, 3) == phys
  {
    Le16RoundTrip(phys);
    var data := [CON_COMPL, 3, 0] + Le16(phys);
    assert data[3] == Le16(phys)[0] && data[4] == Le16(phys)[1];
    data
  }

  /** A reachable state in which the next accept gives two live connections one handle: all the
      host's packets for the dongle's connection then go to the fake Wiimote. */
  lemma WrapAroundCollides(phys: word) returns (es: seq<Event>)
    requires phys < 0x1000
    ensures Legal(Boot(), es)
    ensures var net := Run(Boot(), es);
            && Inv(net) && |net.fakes| > 0 && net.conns == map[0 := phys] && net.fakes[0].None?
            && var net' := AfterFakeUp(net, 0);
               && net'.conns == map[0 := phys] && net'.fakes[0] == Some(HandleOf(0))
               && GetPhys(net'.hci.table, HandleOf(0)) == Some(phys)
               && forall data :: |data| >= 4 && ConHandle(WordAt(data, 0)) == HandleOf(0) ==> RouteAcl(net', data) == ToFake(0)
  {
    hide RouteAcl, GetPhys, Inv, Enabled, Step;
    var e := FromController(ConnectionUp(phys));
    FirstConnection(phys);
    var rest := WearOut(Step(Boot(), e), phys);
    es := [e] + rest;
    assert es[1..] == rest;
    Worn(Run(Boot(), es), phys);
  }

  lemma FirstConnection(phys: word)
    requires phys < 0x1000
    ensures var e := FromController(ConnectionUp(phys));
            && Enabled(Boot(), e) && Inv(Step(Boot(), e))
            && OnlyFirst(Step(Boot(), e), phys) && Step(Boot(), e).allocs == 1
  {
    assert forall n: nat :: !Live(Boot(), n);
    StepKeepsInv(Boot(), FromController(ConnectionUp(phys)));
  }

  lemma Worn(net: Net, phys: word)
    requires Inv(net) && OnlyFirst(net, phys) && net.allocs == 0x100
    ensures |net.fakes| > 0 && |net.numbers| == |net.fakes|
    ensures var net' := AfterFakeUp(net, 0);
            && net'.fakes[0] == Some(HandleOf(0)) && GetPhys(net'.hci.table, HandleOf(0)) == Some(phys)
            && forall data :: |data| >= 4 && ConHandle(WordAt(data, 0)) == HandleOf(0) ==> RouteAcl(net', data) == ToFake(0)
  {
    hide RouteAcl, GetPhys, Represents, HandleOf;
    HandleCollision(0, 0x100);
    TableRenames(net, 0);
    forall data | |data| >= 4 && ConHandle(WordAt(data, 0)) == HandleOf(0)
      ensures RouteAcl(AfterFakeUp(net, 0), data) == ToFake(0)
    {
      FirstTakes(AfterFakeUp(net, 0), data);
    }
  }

  lemma FirstTakes(net: Net, data: seq<byte>)
    requires |data| >= 4 && net.fakes != [] && net.fakes[0] == Some(ConHandle(WordAt(data, 0)))
    ensures RouteAcl(net, data) == ToFake(0)
  {
  }
}
