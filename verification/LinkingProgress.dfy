/**
 * Linking terminates. Against a host that eventually answers every request, in any order and
 * after any delay, the two channels come up and the linking phase ends with a resume.
 */
module LinkingProgress {
  import opened Bytes
  import opened L2cap
  import opened Linking
  import opened ChannelIds

  // ---------------------------------------------------------------- the host

  /** A step the host may take: connections are accepted with a channel of the host's own, and
      configurations carry a non-zero MTU. */
  predicate HostPolite(l: Link, e: Event) {
    match e
    case Accept(_) => false
    case Ticked(_) => true
    case Signalled(r) =>
      Expected(l, r) &&
      match r
      case ConnectRsp(dcid, _, _, _) => !Refused(r) && dcid != NULL_CID
      case ConfigReq(_, _, _, options) => ParsedMtu(options, MTU_DEFAULT) != 0
      case ConfigRsp(_, _) => true
      case DisconnectReq(_, _, _) => false
      case OtherRequest => true
  }

  /** And a new channel gets an identifier of its own. */
  predicate Polite(l: Link, e: Event) {
    HostPolite(l, e) && (e.Ticked? && Opens(l) ==> FreshCid(l, e.env.cid))
  }

  /** An infinite run of polite steps. */
  ghost predicate IsRun(st: nat -> Link, ev: nat -> Event) {
    forall n: nat :: Polite(st(n), ev(n)) && st(n + 1) == Step(st(n), ev(n)).0
  }

  predicate GoodTick(e: Event) { e.Ticked? && e.env.okCntl && e.env.okIntr }

  predicate ConnectAnswer(e: Event, cid: word) {
    e.Signalled? && e.request.ConnectRsp? && e.request.scid == cid
  }

  predicate ConfigAnswer(e: Event, cid: word) {
    e.Signalled? && e.request.ConfigRsp? && e.request.scid == cid
  }

  predicate HostConfig(e: Event, cid: word) {
    e.Signalled? && e.request.ConfigReq? && e.request.dcid == cid
  }

  ghost predicate TickComes(ev: nat -> Event, n: nat) {
    exists m: nat :: n <= m && GoodTick(ev(m))
  }

  /** Ticks with working injections keep coming, and for every open channel the host eventually
      answers the connection request, answers the configuration request and sends its own. */
  ghost predicate Fair(st: nat -> Link, ev: nat -> Event) {
    && (forall n: nat :: TickComes(ev, n))
    && (forall n: nat, w: Which :: st(n).Get(w).valid && !IsAccepted(st(n).Get(w)) ==>
          exists m: nat :: n <= m && ConnectAnswer(ev(m), st(n).Get(w).localCid))
    && (forall n: nat, w: Which :: st(n).Get(w).valid && st(n).Get(w).state == ConfigPend ==>
          exists m: nat :: n <= m && ConfigAnswer(ev(m), st(n).Get(w).localCid))
    && (forall n: nat, w: Which :: st(n).Get(w).valid && !IsRemoteConfigured(st(n).Get(w)) ==>
          exists m: nat :: n <= m && HostConfig(ev(m), st(n).Get(w).localCid))
  }

  // ---------------------------------------------------------------- the rank

  function Score(c: Channel): nat {
    if !c.valid then 0
    else 1 + (if IsAccepted(c) then 1 else 0) + (if IsRemoteConfigured(c) then 1 else 0) + Rank(c.state)
  }

  const FULL := 5

  function Progress(l: Link): nat { Score(l.cntl) + Score(l.intr) }

  predicate LinkingNow(l: Link) {
    && l.baseband == BasebandComplete && l.acl == AclLinking
    && (l.cntl.valid && l.intr.valid ==> l.cntl.localCid != l.intr.localCid)
  }

  /** Nothing reached is lost: b is at least as far as a, on the same channels. */
  predicate NoWorse(a: Channel, b: Channel) {
    a.valid ==>
      && b.valid && b.localCid == a.localCid
      && (IsAccepted(a) ==> IsAccepted(b))
      && (IsRemoteConfigured(a) ==> IsRemoteConfigured(b))
      && Rank(a.state) <= Rank(b.state)
  }

  predicate Onward(a: Link, b: Link) {
    LinkingNow(b) && NoWorse(a.cntl, b.cntl) && NoWorse(a.intr, b.intr)
  }

  lemma OnwardScores(a: Link, b: Link)
    requires Onward(a, b)
    ensures forall w: Which :: Score(a.Get(w)) <= Score(b.Get(w)) <= FULL
    ensures Score(a.cntl) <= Score(b.cntl) && Score(a.intr) <= Score(b.intr)
    ensures forall w: Which :: NoWorse(a.Get(w), b.Get(w))
    ensures Progress(a) <= Progress(b) <= 2 * FULL
  {
  }

  /** Every polite step while linking moves onward or ends the linking with a resume. */
  lemma PoliteStep(l: Link, e: Event)
    requires LinkingNow(l) && Polite(l, e)
    ensures var (l', outs) := Step(l, e);
            (l'.acl == AclInactive && Resume in outs) || Onward(l, l')
  {
    hide ParsedMtu, OptionsWellFormed, LinkingTick, OnRequest, Expected;
    match e
    case Ticked(env) => PoliteTick(l, env);
    case Signalled(r) => PoliteRequest(l, r);
  }

  lemma PoliteRequest(l: Link, r: Request)
    requires LinkingNow(l) && Polite(l, Signalled(r))
    ensures Onward(l, OnRequest(l, r).0)
  {
    hide ParsedMtu, OptionsWellFormed;
    match r
    case ConnectRsp(_, scid, _, _) => assert ChannelOf(l, scid).Some?;
    case ConfigReq(_, dcid, _, _) => assert ChannelOf(l, dcid).Some?;
    case ConfigRsp(scid, _) => assert ChannelOf(l, scid).Some?;
    case OtherRequest =>
  }

  lemma PoliteTick(l: Link, env: TickEnv)
    requires LinkingNow(l) && Polite(l, Ticked(env))
    ensures var (l', outs) := LinkingTick(l, env);
            (l'.acl == AclInactive && Resume in outs) || Onward(l, l')
  {
    hide ConfigureBoth;
    var c, i := l.(cntl := Setup(PSM_HID_CNTL, env.cid)), l.(intr := Setup(PSM_HID_INTR, env.cid));
    if !l.cntl.valid {
      ConfiguringIsOnward(c, env);
    } else if IsComplete(l.cntl) && !l.intr.valid {
      ConfiguringIsOnward(i, env);
    } else {
      ConfiguringIsOnward(l, env);
    }
  }

  lemma ConfiguringIsOnward(l: Link, env: TickEnv)
    requires LinkingNow(l)
    ensures Onward(l, ConfigureBoth(l, env).0)
  {
  }

  /** From linking at n, at m either the linking has ended on the way or nothing was lost. */
  lemma {:induction false} Persists(st: nat -> Link, ev: nat -> Event, n: nat, m: nat) returns (ended: bool, k: nat)
    requires IsRun(st, ev) && LinkingNow(st(n)) && n <= m
    ensures ended ==> Resume in Step(st(k), ev(k)).1
    ensures !ended ==> Onward(st(n), st(m))
    decreases m - n
  {
    hide Step, Polite;
    if n == m {
      return false, n;
    }
    assert Polite(st(n), ev(n)) && st(n + 1) == Step(st(n), ev(n)).0;
    PoliteStep(st(n), ev(n));
    if Resume in Step(st(n), ev(n)).1 {
      return true, n;
    }
    ended, k := Persists(st, ev, n + 1, m);
    if !ended {
      OnwardTransitive(st(n), st(n + 1), st(m));
    }
  }

  lemma OnwardTransitive(a: Link, b: Link, c: Link)
    requires Onward(a, b) && Onward(b, c)
    ensures Onward(a, c)
  {
  }

  // ---------------------------------------------------------------- each answer is progress

  /** A tick whose injections work opens the next channel, configures an accepted one, or ends. */
  lemma TickAdvances(l: Link, e: Event, w: Which)
    requires LinkingNow(l) && Polite(l, e) && GoodTick(e)
    requires
      || (w == Cntl && !l.cntl.valid)
      || (w == Intr && IsComplete(l.cntl) && !l.intr.valid)
      || (IsAccepted(l.Get(w)) && l.Get(w).state == Inactive && l.cntl.valid && (w == Intr ==> l.intr.valid))
      || (IsComplete(l.cntl) && IsComplete(l.intr))
    ensures Resume in Step(l, e).1 || Score(Step(l, e).0.Get(w)) > Score(l.Get(w))
  {
    hide ParsedMtu, OptionsWellFormed, ConfigureBoth;
    if (w == Cntl && !l.cntl.valid) || (w == Intr && IsComplete(l.cntl) && !l.intr.valid) {
      OpeningAdvances(l, e.env, w);
    } else if IsAccepted(l.Get(w)) && l.Get(w).state == Inactive {
      ConfiguringAdvances(l, e.env, w);
    }
  }

  lemma OpeningAdvances(l: Link, env: TickEnv, w: Which)
    requires (w == Cntl && !l.cntl.valid) || (w == Intr && IsComplete(l.cntl) && !l.intr.valid)
    ensures Score(LinkingTick(l, env).0.Get(w)) > Score(l.Get(w))
  {
    hide ConfigureBoth;
    ConfigureFacts(l.Set(w, Setup(if w == Cntl then PSM_HID_CNTL else PSM_HID_INTR, env.cid)), env, w);
  }

  lemma ConfiguringAdvances(l: Link, env: TickEnv, w: Which)
    requires IsAccepted(l.Get(w)) && l.Get(w).state == Inactive && env.okCntl && env.okIntr
    ensures Score(ConfigureBoth(l, env).0.Get(w)) > Score(l.Get(w))
  {
  }

  lemma AnswerAdvances(l: Link, e: Event, w: Which)
    requires LinkingNow(l) && Polite(l, e) && l.Get(w).valid
    requires
      || (ConnectAnswer(e, l.Get(w).localCid) && !IsAccepted(l.Get(w)))
      || (ConfigAnswer(e, l.Get(w).localCid) && l.Get(w).state == ConfigPend)
      || (HostConfig(e, l.Get(w).localCid) && !IsRemoteConfigured(l.Get(w)))
    ensures Score(Step(l, e).0.Get(w)) > Score(l.Get(w))
  {
    hide ParsedMtu, OptionsWellFormed;
    assert ChannelOf(l, l.Get(w).localCid) == Some(w);
  }

  /** Some later state has more progress than st(n), or a resume has happened. */
  ghost predicate Advanced(st: nat -> Link, ev: nat -> Event, n: nat, m: nat) {
    Resume in Step(st(m), ev(m)).1 || (LinkingNow(st(m)) && Progress(st(m)) > Progress(st(n)))
  }

  /** If the event at m moves channel w on from where it was at n, there is an advance. */
  lemma AdvanceAt(st: nat -> Link, ev: nat -> Event, n: nat, m: nat, w: Which) returns (k: nat)
    requires IsRun(st, ev) && LinkingNow(st(n)) && n <= m && Onward(st(n), st(m))
    requires Score(st(m).Get(w)) == Score(st(n).Get(w)) ==>
               Resume in Step(st(m), ev(m)).1 || Score(Step(st(m), ev(m)).0.Get(w)) > Score(st(m).Get(w))
    ensures Advanced(st, ev, n, k)
  {
    hide Step, Polite, Score;
    OnwardScores(st(n), st(m));
    assert Polite(st(m), ev(m)) && st(m + 1) == Step(st(m), ev(m)).0;
    if Score(st(m).Get(w)) > Score(st(n).Get(w)) {
      return m;
    }
    PoliteStep(st(m), ev(m));
    if Resume in Step(st(m), ev(m)).1 {
      return m;
    }
    OnwardScores(st(m), st(m + 1));
    return m + 1;
  }

  /** Equal scores and no loss mean nothing about the channel has changed. */
  lemma SameScore(a: Channel, b: Channel)
    requires NoWorse(a, b) && Score(a) == Score(b)
    ensures a.valid == b.valid
    ensures a.valid ==> a.localCid == b.localCid && a.state == b.state
    ensures IsAccepted(a) == IsAccepted(b) && IsRemoteConfigured(a) == IsRemoteConfigured(b)
    ensures IsComplete(a) == IsComplete(b)
  {
  }

  lemma AdvanceByTick(st: nat -> Link, ev: nat -> Event, n: nat, w: Which) returns (k: nat)
    requires IsRun(st, ev) && Fair(st, ev) && LinkingNow(st(n))
    requires w == Intr ==> st(n).cntl.valid
    requires
      || (w == Cntl && !st(n).cntl.valid)
      || (w == Intr && IsComplete(st(n).cntl) && !st(n).intr.valid)
      || (IsAccepted(st(n).Get(w)) && st(n).Get(w).state == Inactive)
      || (w == Intr && IsComplete(st(n).cntl) && IsComplete(st(n).intr))
    ensures Advanced(st, ev, n, k)
  {
    hide Step, Polite, Score;
    assert TickComes(ev, n);
    var m: nat :| n <= m && GoodTick(ev(m));
    var ended, e := Persists(st, ev, n, m);
    if ended {
      return e;
    }
    OnwardScores(st(n), st(m));
    assert Polite(st(m), ev(m));
    if Score(st(m).cntl) > Score(st(n).cntl) {
      k := AdvanceAt(st, ev, n, m, Cntl);
    } else {
      SameScore(st(n).cntl, st(m).cntl);
      if Score(st(m).Get(w)) == Score(st(n).Get(w)) {
        SameScore(st(n).Get(w), st(m).Get(w));
        TickAdvances(st(m), ev(m), w);
      }
      k := AdvanceAt(st, ev, n, m, w);
    }
  }

  /** An open channel that is not complete advances: one of its requests is answered, or the next
      tick sends the request. */
  lemma AdvanceChannel(st: nat -> Link, ev: nat -> Event, n: nat, w: Which) returns (k: nat)
    requires IsRun(st, ev) && Fair(st, ev) && LinkingNow(st(n))
    requires st(n).Get(w).valid && !IsComplete(st(n).Get(w)) && (w == Intr ==> st(n).cntl.valid)
    ensures Advanced(st, ev, n, k)
  {
    var c := st(n).Get(w);
    if IsAccepted(c) && c.state == Inactive {
      k := AdvanceByTick(st, ev, n, w);
    } else {
      var m := AnswerComes(st, ev, n, w);
      k := AdvanceByAnswer(st, ev, n, m, w);
    }
  }

  predicate Answers(e: Event, c: Channel) {
    || (ConnectAnswer(e, c.localCid) && !IsAccepted(c))
    || (ConfigAnswer(e, c.localCid) && c.state == ConfigPend)
    || (HostConfig(e, c.localCid) && !IsRemoteConfigured(c))
  }

  lemma AnswerComes(st: nat -> Link, ev: nat -> Event, n: nat, w: Which) returns (m: nat)
    requires Fair(st, ev) && st(n).Get(w).valid && !IsComplete(st(n).Get(w))
    requires !(IsAccepted(st(n).Get(w)) && st(n).Get(w).state == Inactive)
    ensures n <= m && Answers(ev(m), st(n).Get(w))
  {
    var c := st(n).Get(w);
    if !IsAccepted(c) {
      m :| n <= m && ConnectAnswer(ev(m), c.localCid);
    } else if c.state == ConfigPend {
      m :| n <= m && ConfigAnswer(ev(m), c.localCid);
    } else {
      m :| n <= m && HostConfig(ev(m), c.localCid);
    }
  }

  lemma AdvanceByAnswer(st: nat -> Link, ev: nat -> Event, n: nat, m: nat, w: Which) returns (k: nat)
    requires IsRun(st, ev) && LinkingNow(st(n)) && st(n).Get(w).valid && n <= m && Answers(ev(m), st(n).Get(w))
    ensures Advanced(st, ev, n, k)
  {
    hide Step, Polite, Score;
    var ended, e := Persists(st, ev, n, m);
    if ended {
      return e;
    }
    OnwardScores(st(n), st(m));
    assert Polite(st(m), ev(m));
    if Score(st(m).Get(w)) == Score(st(n).Get(w)) {
      SameScore(st(n).Get(w), st(m).Get(w));
      AnswerAdvances(st(m), ev(m), w);
    }
    k := AdvanceAt(st, ev, n, m, w);
  }

  lemma Advance(st: nat -> Link, ev: nat -> Event, n: nat) returns (k: nat)
    requires IsRun(st, ev) && Fair(st, ev) && LinkingNow(st(n))
    ensures Advanced(st, ev, n, k)
  {
    var l := st(n);
    if !l.cntl.valid {
      k := AdvanceByTick(st, ev, n, Cntl);
    } else if !IsComplete(l.cntl) {
      k := AdvanceChannel(st, ev, n, Cntl);
    } else if !l.intr.valid || IsComplete(l.intr) {
      k := AdvanceByTick(st, ev, n, Intr);
    } else {
      k := AdvanceChannel(st, ev, n, Intr);
    }
  }

  /** On every fair run of polite steps that is linking at some point there is a resume. */
  lemma {:induction false} PoliteRunsEnd(st: nat -> Link, ev: nat -> Event, n: nat) returns (k: nat)
    requires IsRun(st, ev) && Fair(st, ev) && LinkingNow(st(n))
    ensures Resume in Step(st(k), ev(k)).1 && Operational(st(k + 1))
    decreases 2 * FULL - Progress(st(n))
  {
    hide Step, Polite, Score, Fair;
    OnwardScores(st(n), st(n));
    k := Advance(st, ev, n);
    if Resume !in Step(st(k), ev(k)).1 {
      OnwardScores(st(k), st(k));
      k := PoliteRunsEnd(st, ev, k);
    } else {
      assert st(k + 1) == Step(st(k), ev(k)).0;
      ResumeOperates(st(k), ev(k));
    }
  }

  // ---------------------------------------------------------------- identifiers from the counter

  /** An infinite run whose host is polite. */
  ghost predicate IsHostRun(st: nat -> Link, ev: nat -> Event) {
    forall n: nat :: HostPolite(st(n), ev(n)) && st(n + 1) == Step(st(n), ev(n)).0
  }

  /** cids(n) identifiers have been given out before step n, to this Wiimote or another; a step that
      opens a channel takes one of those given out in it. */
  ghost predicate FromCounter(st: nat -> Link, ev: nat -> Event, cids: nat -> nat) {
    forall n: nat ::
      cids(n) <= cids(n + 1) && (ev(n).Ticked? && Opens(st(n)) ==> Drawn(ev(n).env.cid, cids(n), cids(n + 1)))
  }

  lemma {:induction false} StaysNumbered(st: nat -> Link, ev: nat -> Event, cids: nat -> nat, n: nat)
    requires IsHostRun(st, ev) && FromCounter(st, ev, cids) && Numbered(st(0), cids(0))
    requires forall m: nat :: cids(m) <= CID_LIMIT
    ensures Numbered(st(n), cids(n)) && Polite(st(n), ev(n))
    ensures ev(n).Ticked? && Opens(st(n)) ==> FreshCid(st(n), ev(n).env.cid)
  {
    hide Step, HostPolite, Numbered, Drawn, FreshCid, Opens;
    if n > 0 {
      StaysNumbered(st, ev, cids, n - 1);
      assert st(n) == st(n - 1 + 1) == Step(st(n - 1), ev(n - 1)).0;
      assert cids(n - 1) <= cids(n - 1 + 1);
      StepKeepsNumbered(st(n - 1), ev(n - 1), cids(n - 1), cids(n));
    }
    assert st(n + 1) == Step(st(n), ev(n)).0 && cids(n) <= cids(n + 1);
    StepKeepsNumbered(st(n), ev(n), cids(n), cids(n + 1));
  }

  /** Linking terminates: on every fair infinite run of a polite host, with identifiers from the
      counter and at most 0xFFC0 of them given out, a link that is linking at some point reaches the
      resume. Every channel is opened under an unused identifier outside the reserved range. */
  lemma LinkingTerminates(st: nat -> Link, ev: nat -> Event, cids: nat -> nat, n: nat) returns (k: nat)
    requires IsHostRun(st, ev) && Fair(st, ev)
    requires FromCounter(st, ev, cids) && Numbered(st(0), cids(0)) && forall m: nat :: cids(m) <= CID_LIMIT
    requires st(n).baseband == BasebandComplete && st(n).acl == AclLinking
    ensures Resume in Step(st(k), ev(k)).1 && Operational(st(k + 1))
    ensures forall m: nat :: ev(m).Ticked? && Opens(st(m)) ==> FreshCid(st(m), ev(m).env.cid)
  {
    hide Step, HostPolite, Polite, Drawn, FreshCid, Opens, Fair;
    forall m: nat ensures Polite(st(m), ev(m)) && st(m + 1) == Step(st(m), ev(m)).0 {
      StaysNumbered(st, ev, cids, m);
      assert HostPolite(st(m), ev(m)) && st(m + 1) == Step(st(m), ev(m)).0;
    }
    forall m: nat | ev(m).Ticked? && Opens(st(m)) ensures FreshCid(st(m), ev(m).env.cid) {
      StaysNumbered(st, ev, cids, m);
    }
    StaysNumbered(st, ev, cids, n);
    k := PoliteRunsEnd(st, ev, n);
  }

  lemma ResumeOperates(l: Link, e: Event)
    requires Resume in Step(l, e).1
    ensures Operational(Step(l, e).0)
  {
    StepFacts(l, e, Cntl);
    hide ParsedMtu, OptionsWellFormed, Expected, OnRequest, LinkingTick;
    if e.Ticked? && l.baseband == BasebandComplete && l.acl == AclLinking {
      LinkingTickFacts(l, e.env, Cntl);
    }
  }

  // ---------------------------------------------------------------- such runs exist

  /** A channel after k steps of its life: closed, opened, accepted, configuring, answered, complete. */
  function Stage(psm: word, cid: word, k: nat): Channel {
    if k == 0 then Setup(psm, cid).(valid := false)
    else if k == 1 then Setup(psm, cid)
    else
      Channel(true, if k == 2 then Inactive else if k == 3 then ConfigPend else Complete, psm, cid, 0x50,
              if k <= 4 then 0 else MTU_DEFAULT)
  }

  function SampleTick(cid: word): Event { Ticked(TickEnv(true, cid, true, true, true)) }

  function StageEvent(cid: word, k: nat): Event {
    if k == 0 then SampleTick(cid)
    else if k == 1 then Signalled(ConnectRsp(0x50, cid, 0, 0))
    else if k == 3 then Signalled(ConfigRsp(cid, 0))
    else if k == 4 then Signalled(ConfigReq(0, cid, 0, []))
    else SampleTick(0x42)
  }

  /** One channel after the other goes through its stages; then ticks forever. */
  function SampleEvent(n: nat): Event {
    if n < 5 then StageEvent(0x40, n) else if n < 10 then StageEvent(0x41, n - 5) else SampleTick(0x42)
  }

  function SampleState(n: nat): Link {
    Link(0, BasebandComplete, if n <= 10 then AclLinking else AclInactive,
         Stage(PSM_HID_CNTL, 0x40, Min(n, 5)), Stage(PSM_HID_INTR, 0x41, if n <= 5 then 0 else Min(n - 5, 5)))
  }

  predicate StepsTo(l: Link, e: Event, l': Link) {
    HostPolite(l, e) && l' == Step(l, e).0
  }

  /** Identifiers given out before step n of the sample run. */
  function SampleCids(n: nat): nat { if n == 0 then 0 else if n <= 5 then 1 else 2 }

  lemma SampleDraws(n: nat)
    ensures SampleCids(n) <= SampleCids(n + 1)
    ensures SampleEvent(n).Ticked? && Opens(SampleState(n)) ==>
              Drawn(SampleEvent(n).env.cid, SampleCids(n), SampleCids(n + 1))
  {
    assert CidOf(0) == 0x40 && CidOf(1) == 0x41;
    if n == 0 {
      assert SampleEvent(n).env.cid == CidOf(0);
    } else if n == 5 {
      assert SampleEvent(n).env.cid == CidOf(1);
    }
  }

  lemma SampleStep(n: nat)
    ensures StepsTo(SampleState(n), SampleEvent(n), SampleState(n + 1))
  {
    hide StepsTo, Stage, StageEvent;
    if n < 5 {
      SampleCntl(n);
    } else if n < 10 {
      SampleIntr(n - 5);
    } else {
      SampleEnd(n);
    }
  }

  function SampleLink(j: nat, k: nat): Link {
    Link(0, BasebandComplete, AclLinking, Stage(PSM_HID_CNTL, 0x40, j), Stage(PSM_HID_INTR, 0x41, k))
  }

  lemma SampleCntl(k: nat)
    requires k < 5
    ensures StepsTo(SampleLink(k, 0), StageEvent(0x40, k), SampleLink(k + 1, 0))
  {
    hide OptionsWellFormed, ParsedMtu;
    if k == 4 {
      NoOptions();
    } else if k == 0 || k == 2 {
      hide Expected, OnRequest;
      assert StepsTo(SampleLink(k, 0), StageEvent(0x40, k), SampleLink(k + 1, 0));
    }
  }

  lemma SampleIntr(k: nat)
    requires k < 5
    ensures StepsTo(SampleLink(5, k), StageEvent(0x41, k), SampleLink(5, k + 1))
  {
    hide OptionsWellFormed, ParsedMtu;
    if k == 4 {
      NoOptions();
    } else if k == 0 || k == 2 {
      hide Expected, OnRequest;
      assert StepsTo(SampleLink(5, k), StageEvent(0x41, k), SampleLink(5, k + 1));
    }
  }

  lemma SampleEnd(n: nat)
    requires n >= 10
    ensures StepsTo(SampleState(n), SampleTick(0x42), SampleState(n + 1))
  {
    hide Expected, OnRequest, ParsedMtu;
  }

  lemma NoOptions()
    ensures OptionsWellFormed([]) && ParsedMtu([], MTU_DEFAULT) == MTU_DEFAULT
  {
  }

  lemma SampleAnswers(n: nat, w: Which) returns (a: nat, b: nat, c: nat)
    requires SampleState(n).Get(w).valid
    ensures !IsAccepted(SampleState(n).Get(w)) ==> n <= a && ConnectAnswer(SampleEvent(a), SampleState(n).Get(w).localCid)
    ensures SampleState(n).Get(w).state == ConfigPend ==>
              n <= b && ConfigAnswer(SampleEvent(b), SampleState(n).Get(w).localCid)
    ensures !IsRemoteConfigured(SampleState(n).Get(w)) ==>
              n <= c && HostConfig(SampleEvent(c), SampleState(n).Get(w).localCid)
  {
    if w == Cntl {
      a, b, c := 1, 3, 4;
    } else {
      a, b, c := 6, 8, 9;
    }
  }

  /** The assumptions of LinkingTerminates can be met, by a run that starts linking from nothing. */
  lemma FairRunsExist() returns (st: nat -> Link, ev: nat -> Event, cids: nat -> nat)
    ensures IsHostRun(st, ev) && Fair(st, ev) && st(0).baseband == BasebandComplete && st(0).acl == AclLinking
    ensures FromCounter(st, ev, cids) && Numbered(st(0), cids(0)) && forall m: nat :: cids(m) <= CID_LIMIT
    ensures Progress(st(0)) == 0
  {
    hide Stage, StageEvent, SampleState, SampleEvent, HostPolite, Step, Opens, Drawn, Fair, Numbered, Progress;
    st, ev, cids := (n: nat) => SampleState(n), (n: nat) => SampleEvent(n), (n: nat) => SampleCids(n);
    forall n: nat ensures HostPolite(st(n), ev(n)) && st(n + 1) == Step(st(n), ev(n)).0 {
      SampleStep(n);
      assert StepsTo(SampleState(n), SampleEvent(n), SampleState(n + 1));
    }
    forall n: nat
      ensures cids(n) <= cids(n + 1)
      ensures ev(n).Ticked? && Opens(st(n)) ==> Drawn(ev(n).env.cid, cids(n), cids(n + 1))
    {
      SampleDraws(n);
    }
    forall n: nat ensures TickComes(ev, n) {
      TicksForever(n);
      assert GoodTick(ev(n + 10));
    }
    SampleIsFair(st, ev);
    SampleStart();
  }

  lemma TicksForever(n: nat)
    ensures GoodTick(SampleEvent(n + 10))
  {
  }

  lemma SampleStart()
    ensures SampleState(0).baseband == BasebandComplete && SampleState(0).acl == AclLinking
    ensures Numbered(SampleState(0), 0) && Progress(SampleState(0)) == 0
  {
  }

  lemma SampleIsFair(st: nat -> Link, ev: nat -> Event)
    requires forall n: nat :: st(n) == SampleState(n) && ev(n) == SampleEvent(n)
    requires forall n: nat :: TickComes(ev, n)
    ensures Fair(st, ev)
  {
    hide SampleState, SampleEvent;
    forall n: nat, w: Which | st(n).Get(w).valid && !IsAccepted(st(n).Get(w))
      ensures exists m: nat :: n <= m && ConnectAnswer(ev(m), st(n).Get(w).localCid)
    {
      var a, b, c := SampleAnswers(n, w);
      assert ConnectAnswer(ev(a), st(n).Get(w).localCid);
    }
    forall n: nat, w: Which | st(n).Get(w).valid && st(n).Get(w).state == ConfigPend
      ensures exists m: nat :: n <= m && ConfigAnswer(ev(m), st(n).Get(w).localCid)
    {
      var a, b, c := SampleAnswers(n, w);
      assert ConfigAnswer(ev(b), st(n).Get(w).localCid);
    }
    forall n: nat, w: Which | st(n).Get(w).valid && !IsRemoteConfigured(st(n).Get(w))
      ensures exists m: nat :: n <= m && HostConfig(ev(m), st(n).Get(w).localCid)
    {
      var a, b, c := SampleAnswers(n, w);
      assert HostConfig(ev(c), st(n).Get(w).localCid);
    }
  }
}
