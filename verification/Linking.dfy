/**
 * The connection of a fake Wiimote (source/fake_wiimote.c): connection request, accept, and the
 * L2CAP linking of the HID control and interrupt channels.
 */
module Linking {
  import opened Bytes
  import opened L2cap

  datatype Baseband = BasebandInactive | RequestConnection | BasebandComplete

  datatype Acl = AclInactive | AclLinking

  datatype ChannelState = Inactive | ConfigPend | Complete

  datatype Channel = Channel(
    valid: bool,
    state: ChannelState,
    psm: word,
    localCid: word,
    remoteCid: word,
    remoteMtu: word)

  const NULL_CID: word := 0
  const PSM_NOT_SUPPORTED: word := 2

  datatype Which = Cntl | Intr

  datatype Link = Link(
    conHandle: word,
    baseband: Baseband,
    acl: Acl,
    cntl: Channel,
    intr: Channel)
  {
    function Get(w: Which): Channel {
      match w case Cntl => cntl case Intr => intr
    }

    function Set(w: Which, c: Channel): Link {
      match w case Cntl => this.(cntl := c) case Intr => this.(intr := c)
    }
  }

  predicate IsAccepted(c: Channel) { c.valid && c.remoteCid != NULL_CID }

  predicate IsRemoteConfigured(c: Channel) { c.valid && c.remoteMtu != 0 }

  predicate IsComplete(c: Channel) {
    IsAccepted(c) && IsRemoteConfigured(c) && c.state == Complete
  }

  function Setup(psm: word, localCid: word): Channel {
    Channel(true, Inactive, psm, localCid, NULL_CID, 0)
  }

  /** get_channel_info: the channel of a local CID. The SDP channel is never opened. */
  function ChannelOf(l: Link, cid: word): Option<Which> {
    if l.cntl.valid && l.cntl.localCid == cid then Some(Cntl)
    else if l.intr.valid && l.intr.localCid == cid then Some(Intr)
    else None
  }

  // ---------------------------------------------------------------- signals from the host

  datatype Request =
    | ConnectRsp(dcid: word, scid: word, result: word, status: word)
    | ConfigReq(ident: byte, dcid: word, flags: word, options: seq<byte>)
    | ConfigRsp(scid: word, result: word)
    | DisconnectReq(ident: byte, dcid: word, scid: word)
    | OtherRequest

  /** The payload holds the fixed fields of its code. */
  predicate SignalSized(s: Signal) {
    && (s.code == CONNECT_RSP ==> |s.payload| >= 8)
    && (s.code == CONFIG_REQ ==> |s.payload| >= 4 && OptionsWellFormed(s.payload[4..]))
    && (s.code == CONFIG_RSP ==> |s.payload| >= 6)
    && (s.code == DISCONNECT_REQ ==> |s.payload| >= 4)
  }

  function Decode(s: Signal): (r: Request)
    requires SignalSized(s)
    ensures r.ConfigReq? ==> OptionsWellFormed(r.options)
  {
    if s.code == CONNECT_RSP then
      ConnectRsp(WordAt(s.payload, 0), WordAt(s.payload, 2), WordAt(s.payload, 4), WordAt(s.payload, 6))
    else if s.code == CONFIG_REQ then
      ConfigReq(s.ident, WordAt(s.payload, 0), WordAt(s.payload, 2), s.payload[4..])
    else if s.code == CONFIG_RSP then
      ConfigRsp(WordAt(s.payload, 0), WordAt(s.payload, 4))
    else if s.code == DISCONNECT_REQ then
      DisconnectReq(s.ident, WordAt(s.payload, 0), WordAt(s.payload, 2))
    else OtherRequest
  }

  /** The host turns the connection down. Some stacks put the reason into the wrong field. */
  predicate Refused(r: Request) {
    r.ConnectRsp? && (r.result != 0 || (r.dcid == PSM_NOT_SUPPORTED && r.scid == 0))
  }

  /** The assertions of the signal handlers. */
  predicate Expected(l: Link, r: Request) {
    match r
    case ConnectRsp(_, scid, _, status) => Refused(r) || (status == 0 && ChannelOf(l, scid).Some?)
    case ConfigReq(_, dcid, flags, options) => flags == 0 && ChannelOf(l, dcid).Some? && OptionsWellFormed(options)
    case ConfigRsp(scid, result) => result == 0 && ChannelOf(l, scid).Some?
    case DisconnectReq(_, dcid, _) => ChannelOf(l, dcid).Some?
    case OtherRequest => true
  }

  // ---------------------------------------------------------------- what the Wiimote sends

  /** ok says whether the injection succeeded. */
  datatype Out =
    | ConnectionRequest(ok: bool)
    | ConnectReq(which: Which, localCid: word)
    | ConfigureReq(which: Which, remoteCid: word, ok: bool)
    | ConfigureRsp(remoteCid: word, ident: byte, options: seq<byte>)
    | DisconnectRsp(ident: byte, dcid: word, scid: word)
    | Resume

  /** One signal; a refused connection changes nothing here but disconnects the Wiimote. */
  function OnRequest(l: Link, r: Request): (Link, seq<Out>)
    requires Expected(l, r)
  {
    match r
    case ConnectRsp(dcid, scid, _, _) =>
      if Refused(r) then (l, [])
      else var w := ChannelOf(l, scid).value; (l.Set(w, l.Get(w).(remoteCid := dcid)), [])
    case ConfigReq(ident, dcid, _, options) =>
      var w := ChannelOf(l, dcid).value;
      (l.Set(w, l.Get(w).(remoteMtu := ParsedMtu(options, MTU_DEFAULT))),
       [ConfigureRsp(l.Get(w).remoteCid, ident, options)])
    case ConfigRsp(scid, _) =>
      var w := ChannelOf(l, scid).value; (l.Set(w, l.Get(w).(state := Complete)), [])
    case DisconnectReq(ident, dcid, scid) =>
      var w := ChannelOf(l, dcid).value; (l.Set(w, l.Get(w).(valid := false)), [DisconnectRsp(ident, dcid, scid)])
    case OtherRequest => (l, [])
  }

  /** What a tick depends on: page scan, the next channel id, and which injections succeed. */
  datatype TickEnv = TickEnv(canRequest: bool, cid: word, okRequest: bool, okCntl: bool, okIntr: bool)

  /** check_send_config_for_new_channel */
  function ConfigureChannel(l: Link, w: Which, ok: bool): (Link, seq<Out>) {
    var c := l.Get(w);
    if IsAccepted(c) && c.state == Inactive then
      (if ok then l.Set(w, c.(state := ConfigPend)) else l, [ConfigureReq(w, c.remoteCid, ok)])
    else (l, [])
  }

  function ConfigureBoth(l: Link, env: TickEnv): (Link, seq<Out>) {
    var (l1, o1) := ConfigureChannel(l, Cntl, env.okCntl);
    var (l2, o2) := ConfigureChannel(l1, Intr, env.okIntr);
    (l2, o1 + o2)
  }

  /** The next tick opens a channel. */
  predicate Opens(l: Link) {
    && l.baseband == BasebandComplete && l.acl == AclLinking
    && (!l.cntl.valid || (IsComplete(l.cntl) && !l.intr.valid))
  }

  /** The linking part of a tick opens at most one channel, or ends the linking. */
  function LinkingTick(l: Link, env: TickEnv): (Link, seq<Out>) {
    if !l.cntl.valid then
      var (l', o) := ConfigureBoth(l.(cntl := Setup(PSM_HID_CNTL, env.cid)), env);
      (l', [ConnectReq(Cntl, env.cid)] + o)
    else if IsComplete(l.cntl) && !l.intr.valid then
      var (l', o) := ConfigureBoth(l.(intr := Setup(PSM_HID_INTR, env.cid)), env);
      (l', [ConnectReq(Intr, env.cid)] + o)
    else if IsComplete(l.cntl) && IsComplete(l.intr) then
      (l.(acl := AclInactive), [Resume])
    else ConfigureBoth(l, env)
  }

  /** The Wiimote serves reads, extension changes and reports on its ticks. */
  predicate Operational(l: Link) {
    l.baseband == BasebandComplete && l.acl == AclInactive
  }

  function OnTick(l: Link, env: TickEnv): (Link, seq<Out>) {
    match l.baseband
    case RequestConnection =>
      if env.canRequest then
        (if env.okRequest then l.(baseband := BasebandInactive) else l, [ConnectionRequest(env.okRequest)])
      else (l, [])
    case BasebandComplete => if l.acl == AclLinking then LinkingTick(l, env) else (l, [])
    case BasebandInactive => (l, [])
  }

  /** The host accepts the connection request. */
  function OnAccept(l: Link, handle: word): Link {
    l.(conHandle := handle, baseband := BasebandComplete, acl := AclLinking)
  }

  /** fake_wiimote_init_state, as far as the connection goes. */
  function InitLink(l: Link): Link {
    l.(baseband := RequestConnection, acl := AclInactive,
       cntl := l.cntl.(valid := false), intr := l.intr.(valid := false))
  }

  // ---------------------------------------------------------------- runs

  datatype Event = Accept(handle: word) | Ticked(env: TickEnv) | Signalled(request: Request)

  predicate Enabled(l: Link, e: Event) {
    e.Signalled? ==> Expected(l, e.request)
  }

  /** Unexpected signals stop the real code; here they change nothing, and no run contains one. */
  function Step(l: Link, e: Event): (Link, seq<Out>) {
    match e
    case Accept(h) => (OnAccept(l, h), [])
    case Ticked(env) => OnTick(l, env)
    case Signalled(r) => if Expected(l, r) then OnRequest(l, r) else (l, [])
  }

  /** The state before event i. */
  function StateAt(l: Link, es: seq<Event>, i: nat): Link
    requires i <= |es|
  {
    if i == 0 then l else Step(StateAt(l, es, i - 1), es[i - 1]).0
  }

  function OutsAt(l: Link, es: seq<Event>, i: nat): seq<Out>
    requires i < |es|
  {
    Step(StateAt(l, es, i), es[i]).1
  }

  predicate Legal(l: Link, es: seq<Event>) {
    forall i :: 0 <= i < |es| ==> Enabled(StateAt(l, es, i), es[i])
  }

  predicate Fresh(l: Link) {
    l.baseband == RequestConnection && l.acl == AclInactive && !l.cntl.valid && !l.intr.valid
  }

  // ---------------------------------------------------------------- the linking order

  datatype Milestone = Accepted | Connected(which: Which) | Completed(which: Which) | Resumed | Reported

  /** Event i of the run is (an occurrence of) the milestone. */
  ghost predicate Occurs(l: Link, es: seq<Event>, i: nat, m: Milestone)
    requires i < |es|
  {
    match m
    case Accepted => es[i].Accept?
    case Connected(w) => exists cid :: ConnectReq(w, cid) in OutsAt(l, es, i)
    case Completed(w) => IsComplete(StateAt(l, es, i + 1).Get(w))
    case Resumed => Resume in OutsAt(l, es, i)
    case Reported => es[i].Ticked? && Operational(StateAt(l, es, i))
  }

  ghost predicate OccursBefore(l: Link, es: seq<Event>, i: nat, m: Milestone)
    requires i <= |es|
  {
    exists j :: 0 <= j < i && Occurs(l, es, j, m)
  }

  /** The milestone that has to come first, if any. */
  function Predecessor(m: Milestone): Option<Milestone> {
    match m
    case Accepted => None
    case Connected(Cntl) => Some(Accepted)
    case Completed(Cntl) => Some(Connected(Cntl))
    case Connected(Intr) => Some(Completed(Cntl))
    case Completed(Intr) => Some(Connected(Intr))
    case Resumed => Some(Completed(Intr))
    case Reported => Some(Resumed)
  }

  /** What one step does to the fields the milestones speak of. */
  lemma StepFacts(l: Link, e: Event, w: Which)
    ensures var (l', outs) := Step(l, e);
            && (l'.baseband == BasebandComplete && l.baseband != BasebandComplete ==> e.Accept?)
            && (l'.acl == AclLinking && l.acl != AclLinking ==> e.Accept?)
            && (e.Accept? ==> l'.acl == AclLinking)
            && (l'.acl != AclLinking && l.acl == AclLinking ==> Resume in outs)
            && (Resume in outs ==>
                  && l'.acl == AclInactive && e.Ticked? && l.baseband == BasebandComplete
                  && IsComplete(l.cntl) && IsComplete(l.intr))
            && (l'.Get(w).valid && !l.Get(w).valid ==> exists cid :: ConnectReq(w, cid) in outs)
            && (forall cid :: ConnectReq(w, cid) in outs ==>
                  && e.Ticked? && !l.Get(w).valid && l.baseband == BasebandComplete
                  && l'.Get(w) == Setup(if w == Cntl then PSM_HID_CNTL else PSM_HID_INTR, cid)
                  && (w == Intr ==> IsComplete(l.cntl)))
  {
    hide ParsedMtu, Expected, OptionsWellFormed, LinkingTick, OnRequest, IsComplete;
    match e
    case Ticked(env) =>
      if l.baseband == BasebandComplete && l.acl == AclLinking {
        LinkingTickFacts(l, env, w);
      }
    case Signalled(r) =>
      if Expected(l, r) {
        RequestFacts(l, r, w);
      }
    case Accept(_) =>
  }

  lemma RequestFacts(l: Link, r: Request, w: Which)
    requires Expected(l, r)
    ensures var (l', outs) := OnRequest(l, r);
            && l'.baseband == l.baseband && l'.acl == l.acl && l'.conHandle == l.conHandle
            && (l'.Get(w).valid ==> l.Get(w).valid)
            && Rank(l.Get(w).state) <= Rank(l'.Get(w).state)
            && (forall o :: o in outs ==> o.ConfigureRsp? || o.DisconnectRsp?)
  {
    hide ParsedMtu, OptionsWellFormed;
  }

  lemma ConfigureChannelFacts(l: Link, v: Which, ok: bool, w: Which)
    ensures var (l', outs) := ConfigureChannel(l, v, ok);
            && l'.baseband == l.baseband && l'.acl == l.acl && l'.conHandle == l.conHandle
            && (forall o :: o in outs ==> o.ConfigureReq?)
            && l'.Get(w).(state := l.Get(w).state) == l.Get(w)
            && (!IsAccepted(l.Get(w)) ==> l'.Get(w) == l.Get(w))
  {
  }

  lemma ConfigureFacts(l: Link, env: TickEnv, w: Which)
    ensures var (l', outs) := ConfigureBoth(l, env);
            && l'.baseband == l.baseband && l'.acl == l.acl && l'.conHandle == l.conHandle
            && (forall o :: o in outs ==> o.ConfigureReq?)
            && l'.Get(w).(state := l.Get(w).state) == l.Get(w)
            && (!IsAccepted(l.Get(w)) ==> l'.Get(w) == l.Get(w))
  {
    hide ConfigureChannel;
    ConfigureChannelFacts(l, Cntl, env.okCntl, w);
    ConfigureChannelFacts(ConfigureChannel(l, Cntl, env.okCntl).0, Intr, env.okIntr, w);
  }

  lemma LinkingTickFacts(l: Link, env: TickEnv, w: Which)
    ensures var (l', outs) := LinkingTick(l, env);
            && l'.baseband == l.baseband && l'.conHandle == l.conHandle
            && (l'.acl != l.acl ==> Resume in outs)
            && (Resume in outs ==> l'.acl == AclInactive && IsComplete(l.cntl) && IsComplete(l.intr))
            && (l'.Get(w).valid && !l.Get(w).valid ==> ConnectReq(w, env.cid) in outs)
            && (forall cid :: ConnectReq(w, cid) in outs ==>
                  && !l.Get(w).valid && (w == Intr ==> IsComplete(l.cntl))
                  && l'.Get(w) == Setup(if w == Cntl then PSM_HID_CNTL else PSM_HID_INTR, cid))
  {
    hide ConfigureBoth;
    ConfigureFacts(l.(cntl := Setup(PSM_HID_CNTL, env.cid)), env, w);
    ConfigureFacts(l.(intr := Setup(PSM_HID_INTR, env.cid)), env, w);
    ConfigureFacts(l, env, w);
    if l.cntl.valid && IsComplete(l.cntl) && IsComplete(l.intr) {
      assert LinkingTick(l, env).1 == [Resume];
    }
  }

  lemma TickFacts(l: Link, env: TickEnv)
    ensures var l' := OnTick(l, env).0;
            && l'.conHandle == l.conHandle
            && (l'.baseband == BasebandComplete <==> l.baseband == BasebandComplete)
  {
    hide LinkingTick;
    LinkingTickFacts(l, env, Cntl);
  }

  /** Whatever holds because of a milestone holds only after it. */
  lemma {:induction false} HistoryOf(l: Link, es: seq<Event>, i: nat, w: Which)
    requires Fresh(l) && i <= |es|
    ensures StateAt(l, es, i).baseband == BasebandComplete ==> OccursBefore(l, es, i, Accepted)
    ensures StateAt(l, es, i).baseband == BasebandComplete && StateAt(l, es, i).acl == AclInactive ==>
              OccursBefore(l, es, i, Resumed)
    ensures StateAt(l, es, i).Get(w).valid ==> OccursBefore(l, es, i, Connected(w))
    ensures IsComplete(StateAt(l, es, i).Get(w)) ==> OccursBefore(l, es, i, Completed(w))
  {
    hide Step;
    if i > 0 {
      HistoryOf(l, es, i - 1, w);
      StepFacts(StateAt(l, es, i - 1), es[i - 1], w);
      Later(l, es, i, Accepted);
      Later(l, es, i, Resumed);
      Later(l, es, i, Connected(w));
      Later(l, es, i, Completed(w));
    }
  }

  lemma Later(l: Link, es: seq<Event>, i: nat, m: Milestone)
    requires 0 < i <= |es|
    ensures OccursBefore(l, es, i - 1, m) || Occurs(l, es, i - 1, m) ==> OccursBefore(l, es, i, m)
  {
  }

  /** In every run from activation each milestone, whenever it occurs, comes strictly after its
      predecessor: accept, control channel connect and complete, interrupt channel connect and
      complete, resume, report. So their first occurrences are in that order. */
  lemma LinkingOrder(l: Link, es: seq<Event>, i: nat, m: Milestone)
    requires Fresh(l) && Legal(l, es) && i < |es| && Occurs(l, es, i, m) && Predecessor(m).Some?
    ensures OccursBefore(l, es, i, Predecessor(m).value)
  {
    hide Occurs, OccursBefore, Step, StateAt;
    match m {
      case Connected(w) => ConnectComesAfter(l, es, i, w);
      case Completed(w) => CompleteComesAfter(l, es, i, w);
      case Resumed => ResumeComesAfter(l, es, i);
      case Reported => ReportComesAfter(l, es, i);
    }
  }

  lemma ResumeComesAfter(l: Link, es: seq<Event>, i: nat)
    requires Fresh(l) && i < |es| && Occurs(l, es, i, Resumed)
    ensures OccursBefore(l, es, i, Completed(Intr))
  {
    hide Step, IsComplete;
    StepFacts(StateAt(l, es, i), es[i], Intr);
    HistoryOf(l, es, i, Intr);
  }

  lemma ReportComesAfter(l: Link, es: seq<Event>, i: nat)
    requires Fresh(l) && i < |es| && Occurs(l, es, i, Reported)
    ensures OccursBefore(l, es, i, Resumed)
  {
    hide Step, IsComplete;
    HistoryOf(l, es, i, Cntl);
  }

  lemma ConnectComesAfter(l: Link, es: seq<Event>, i: nat, w: Which)
    requires Fresh(l) && i < |es| && Occurs(l, es, i, Connected(w))
    ensures OccursBefore(l, es, i, Predecessor(Connected(w)).value)
  {
    hide Step, IsComplete;
    StepFacts(StateAt(l, es, i), es[i], w);
    HistoryOf(l, es, i, Cntl);
  }

  lemma CompleteComesAfter(l: Link, es: seq<Event>, i: nat, w: Which)
    requires Fresh(l) && i < |es| && Occurs(l, es, i, Completed(w))
    ensures OccursBefore(l, es, i, Connected(w))
  {
    hide Step, IsComplete;
    HistoryOf(l, es, i, w);
    CompleteNeedsValid(StateAt(l, es, i), es[i], w);
  }

  /** A channel does not become complete in the step that opens it. */
  lemma CompleteNeedsValid(l: Link, e: Event, w: Which)
    requires IsComplete(Step(l, e).0.Get(w))
    ensures l.Get(w).valid
  {
    StepFacts(l, e, w);
  }

  /** Between two resumes the host has accepted again. */
  lemma OneResumePerAccept(l: Link, es: seq<Event>, i: nat, j: nat)
    requires i < j < |es| && Occurs(l, es, i, Resumed) && Occurs(l, es, j, Resumed)
    ensures exists k :: i < k < j && Occurs(l, es, k, Accepted)
  {
    StepFacts(StateAt(l, es, i), es[i], Cntl);
    if forall k :: i < k < j ==> !Occurs(l, es, k, Accepted) {
      AclStaysInactive(l, es, i + 1, j);
      ResumeNeedsLinking(StateAt(l, es, j), es[j]);
    }
  }

  lemma ResumeNeedsLinking(l: Link, e: Event)
    requires Resume in Step(l, e).1
    ensures l.acl == AclLinking
  {
    hide Expected, ParsedMtu;
  }

  lemma {:induction false} AclStaysInactive(l: Link, es: seq<Event>, i: nat, j: nat)
    requires i <= j <= |es| && StateAt(l, es, i).acl == AclInactive
    requires forall k :: i <= k < j ==> !Occurs(l, es, k, Accepted)
    ensures StateAt(l, es, j).acl == AclInactive
    decreases j - i
  {
    if i < j {
      assert !Occurs(l, es, i, Accepted);
      StepFacts(StateAt(l, es, i), es[i], Cntl);
      AclStaysInactive(l, es, i + 1, j);
    }
  }

  // ---------------------------------------------------------------- one incarnation of a channel

  function Rank(s: ChannelState): nat {
    match s case Inactive => 0 case ConfigPend => 1 case Complete => 2
  }

  /** A configuration request for the channel was sent successfully. */
  ghost predicate Configured(l: Link, es: seq<Event>, i: nat, w: Which)
    requires i < |es|
  {
    exists cid :: ConfigureReq(w, cid, true) in OutsAt(l, es, i)
  }

  lemma ChannelStep(l: Link, e: Event, w: Which)
    ensures var (l', outs) := Step(l, e);
            && ((forall cid :: ConnectReq(w, cid) !in outs) ==> Rank(l.Get(w).state) <= Rank(l'.Get(w).state))
            && ((exists cid :: ConfigureReq(w, cid, true) in outs) ==>
                  Rank(l.Get(w).state) == 0 && Rank(l'.Get(w).state) == 1 && forall cid :: ConnectReq(w, cid) !in outs)
  {
    hide ParsedMtu, Expected, OptionsWellFormed, LinkingTick, OnRequest;
    match e
    case Ticked(env) =>
      if l.baseband == BasebandComplete && l.acl == AclLinking {
        LinkingChannelStep(l, env, w);
      }
    case Signalled(r) =>
      if Expected(l, r) {
        RequestFacts(l, r, w);
      }
    case Accept(_) =>
  }

  lemma LinkingChannelStep(l: Link, env: TickEnv, w: Which)
    ensures var (l', outs) := LinkingTick(l, env);
            && ((forall cid :: ConnectReq(w, cid) !in outs) ==> Rank(l.Get(w).state) <= Rank(l'.Get(w).state))
            && (forall cid :: ConfigureReq(w, cid, true) in outs ==>
                  Rank(l.Get(w).state) == 0 && Rank(l'.Get(w).state) == 1 && forall cid :: ConnectReq(w, cid) !in outs)
  {
    hide ConfigureBoth;
    var c, i := l.(cntl := Setup(PSM_HID_CNTL, env.cid)), l.(intr := Setup(PSM_HID_INTR, env.cid));
    ConfigureRank(c, env, w);
    ConfigureRank(i, env, w);
    ConfigureRank(l, env, w);
    if !l.cntl.valid {
      assert ConnectReq(Cntl, env.cid) in LinkingTick(l, env).1;
    } else if IsComplete(l.cntl) && !l.intr.valid {
      assert ConnectReq(Intr, env.cid) in LinkingTick(l, env).1;
    }
  }

  lemma ConfigureRank(l: Link, env: TickEnv, w: Which)
    ensures var (l', outs) := ConfigureBoth(l, env);
            && Rank(l.Get(w).state) <= Rank(l'.Get(w).state)
            && (forall o :: o in outs ==> o.ConfigureReq?)
            && (forall cid :: ConfigureReq(w, cid, true) in outs ==>
                  IsAccepted(l.Get(w)) && Rank(l.Get(w).state) == 0 && Rank(l'.Get(w).state) == 1)
  {
  }

  /** Until it is opened anew, a channel's state only moves forward. */
  lemma {:induction false} StateNeverMovesBack(l: Link, es: seq<Event>, i: nat, j: nat, w: Which)
    requires i <= j <= |es| && forall k :: i <= k < j ==> !Occurs(l, es, k, Connected(w))
    ensures Rank(StateAt(l, es, i).Get(w).state) <= Rank(StateAt(l, es, j).Get(w).state)
    decreases j - i
  {
    hide Step;
    if i < j {
      assert !Occurs(l, es, i, Connected(w));
      ChannelStep(StateAt(l, es, i), es[i], w);
      StateNeverMovesBack(l, es, i + 1, j, w);
    }
  }

  /** So each incarnation of a channel sends at most one successful configuration request. */
  lemma OneConfigPerIncarnation(l: Link, es: seq<Event>, i: nat, j: nat, w: Which)
    requires i < j < |es| && Configured(l, es, i, w) && Configured(l, es, j, w)
    ensures exists k :: i < k < j && Occurs(l, es, k, Connected(w))
  {
    hide Step;
    ChannelStep(StateAt(l, es, i), es[i], w);
    ChannelStep(StateAt(l, es, j), es[j], w);
    if forall k :: i < k < j ==> !Occurs(l, es, k, Connected(w)) {
      StateNeverMovesBack(l, es, i + 1, j, w);
    }
  }
}
