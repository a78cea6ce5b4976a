/**
 * The identifiers of L2CAP channels (source/fake_wiimote.c): one 16-bit counter for all fake
 * Wiimotes, and why a lookup by identifier finds the right channel.
 */
module ChannelIds {
  import opened Bytes
  import opened Linking
  import L2cap

  // ---------------------------------------------------------------- the counter

  /** generate_l2cap_channel_id: a 16-bit counter that is never reset. */
  class CidGenerator {
    var startingId: word
    ghost var count: nat

    ghost predicate Valid()
      reads this
    {
      startingId == CidOf(count)
    }

    constructor ()
      ensures Valid() && count == 0
    {
      startingId := 0x40;
      count := 0;
    }

    method Next() returns (cid: word)
      requires Valid()
      modifies this
      ensures Valid() && cid == CidOf(old(count)) && count == old(count) + 1
    {
      cid := startingId;
      startingId := startingId + 1;
      count := count + 1;
    }
  }

  /** The n-th identifier given out. */
  function CidOf(n: nat): word {
    if n == 0 then 0x40 else CidOf(n - 1) + 1
  }

  lemma WordSucc(w: word)
    ensures Val(w + 1) == if w == 0xFFFF then 0 else Val(w) + 1
  {
    if Low(w) == 0xFF {
      CarrySucc(w);
      if High(w) != 0xFF {
        NotMaxSucc(High(w));
      }
    } else {
      LowSucc(w);
      NotMaxSucc(Low(w));
    }
  }

  lemma LowSucc(w: word)
    requires Low(w) != 0xFF
    ensures Low(w + 1) == Low(w) + 1 && High(w + 1) == High(w) && w != 0xFFFF
  {
  }

  lemma CarrySucc(w: word)
    requires Low(w) == 0xFF
    ensures Low(w + 1) == 0 && High(w + 1) == High(w) + 1
    ensures w == 0xFFFF <==> High(w) == 0xFF
  {
  }

  lemma MaxWord()
    ensures Val(0xFFFF) == 0xFFFF && Val(0x40) == 0x40
  {
  }

  lemma {:induction false} CidValue(n: nat)
    ensures Val(CidOf(n)) == (0x40 + n) % 0x1_0000
  {
    hide Val;
    MaxWord();
    if n > 0 {
      CidValue(n - 1);
      WordSucc(CidOf(n - 1));
      if Val(CidOf(n - 1)) == 0xFFFF {
        WordUnique(CidOf(n - 1), 0xFFFF);
      }
    }
  }

  /** Two identifiers are equal exactly when a multiple of 65536 allocations lies between them;
      the reserved ones are avoided exactly until the counter wraps around to them. */
  lemma CidsAreFresh(m: nat, n: nat)
    ensures CidOf(m) == CidOf(n) <==> m % 0x1_0000 == n % 0x1_0000
    ensures n < 0xFFC0 ==> Val(CidOf(n)) == 0x40 + n
    ensures Val(CidOf(n)) >= 0x40 <==> n % 0x1_0000 < 0xFFC0
  {
    hide Val;
    CidValue(m);
    CidValue(n);
    SameResidue(0x40 + m, 0x40 + n, m, n);
    if m % 0x1_0000 == n % 0x1_0000 {
      WordUnique(CidOf(m), CidOf(n));
    }
  }

  lemma SameResidue(a: nat, b: nat, m: nat, n: nat)
    requires a == 0x40 + m && b == 0x40 + n
    ensures a % 0x1_0000 == b % 0x1_0000 <==> m % 0x1_0000 == n % 0x1_0000
    ensures b % 0x1_0000 >= 0x40 <==> n % 0x1_0000 < 0xFFC0
    ensures n < 0xFFC0 ==> b % 0x1_0000 == b
  {
    CidResidue(m);
    CidResidue(n);
  }

  lemma CidResidue(n: nat)
    ensures var r := n % 0x1_0000; (0x40 + n) % 0x1_0000 == if r < 0xFFC0 then r + 0x40 else r - 0xFFC0
  {
  }

  // ---------------------------------------------------------------- the channels of a Wiimote

  /** From here on the counter has wrapped around into the reserved identifiers. */
  const CID_LIMIT := 0xFFC0

  /** cid was given out as one of the identifiers number a to b-1. */
  ghost predicate Drawn(cid: word, a: nat, b: nat) {
    exists k: nat :: a <= k < b && cid == CidOf(k)
  }

  /** The open channels have identifiers among the first n, and different ones. */
  ghost predicate Numbered(l: Link, n: nat) {
    && (l.cntl.valid ==> Drawn(l.cntl.localCid, 0, n))
    && (l.intr.valid ==> Drawn(l.intr.localCid, 0, n))
    && (l.cntl.valid && l.intr.valid ==> l.cntl.localCid != l.intr.localCid)
  }

  /** An identifier that no open channel has, outside the reserved range. */
  predicate FreshCid(l: Link, cid: word) {
    && (l.cntl.valid ==> l.cntl.localCid != cid)
    && (l.intr.valid ==> l.intr.localCid != cid)
    && Val(cid) >= 0x40
  }

  /** Within the limit a newly drawn identifier is fresh. */
  lemma DrawnIsFresh(l: Link, a: nat, b: nat, cid: word)
    requires Numbered(l, a) && Drawn(cid, a, b) && b <= CID_LIMIT
    ensures FreshCid(l, cid)
  {
    hide CidOf, Val;
    var k: nat :| a <= k < b && cid == CidOf(k);
    forall j: nat | j < a ensures CidOf(j) != CidOf(k) {
      CidsAreFresh(j, k);
    }
    CidsAreFresh(k, k);
  }

  /** A step opens at most one channel, under the identifier of the tick; every other open channel
      was open before, under the identifier it has. */
  lemma StepCids(l: Link, e: Event, w: Which)
    requires Step(l, e).0.Get(w).valid
    ensures (l.Get(w).valid && Step(l, e).0.Get(w).localCid == l.Get(w).localCid)
            || (e.Ticked? && Opens(l) && !l.Get(w).valid && Step(l, e).0.Get(w).localCid == e.env.cid)
    ensures e.Ticked? && Opens(l) && w == Intr && !l.intr.valid ==> l.cntl.valid
  {
    hide L2cap.ParsedMtu, L2cap.OptionsWellFormed, ConfigureBoth, OnRequest, LinkingTick;
    match e
    case Accept(_) =>
    case Ticked(env) =>
      if l.baseband == BasebandComplete && l.acl == AclLinking {
        TickCids(l, env, w);
      }
    case Signalled(r) =>
      if Expected(l, r) {
        RequestCids(l, r, w);
      }
  }

  lemma TickCids(l: Link, env: TickEnv, w: Which)
    requires LinkingTick(l, env).0.Get(w).valid && l.baseband == BasebandComplete && l.acl == AclLinking
    ensures (l.Get(w).valid && LinkingTick(l, env).0.Get(w).localCid == l.Get(w).localCid)
            || (Opens(l) && !l.Get(w).valid && LinkingTick(l, env).0.Get(w).localCid == env.cid)
    ensures Opens(l) && w == Intr && !l.intr.valid ==> l.cntl.valid
  {
    hide ConfigureBoth;
    ConfigureFacts(l.(cntl := Setup(L2cap.PSM_HID_CNTL, env.cid)), env, w);
    ConfigureFacts(l.(intr := Setup(L2cap.PSM_HID_INTR, env.cid)), env, w);
    ConfigureFacts(l, env, w);
  }

  lemma RequestCids(l: Link, r: Request, w: Which)
    requires Expected(l, r) && OnRequest(l, r).0.Get(w).valid
    ensures l.Get(w).valid && OnRequest(l, r).0.Get(w).localCid == l.Get(w).localCid
  {
    hide L2cap.ParsedMtu, L2cap.OptionsWellFormed;
  }

  /** A step that opens a channel under the next identifiers keeps the numbering. */
  lemma StepKeepsNumbered(l: Link, e: Event, a: nat, b: nat)
    requires Numbered(l, a) && a <= b <= CID_LIMIT
    requires e.Ticked? && Opens(l) ==> Drawn(e.env.cid, a, b)
    ensures Numbered(Step(l, e).0, b)
    ensures e.Ticked? && Opens(l) ==> FreshCid(l, e.env.cid)
  {
    hide Step, Drawn, FreshCid, Opens;
    if e.Ticked? && Opens(l) {
      DrawnIsFresh(l, a, b, e.env.cid);
      FreshMeans(l, e.env.cid);
      DrawnLater(e.env.cid, a, b, 0, b);
    }
    if Step(l, e).0.cntl.valid {
      StepCids(l, e, Cntl);
      if l.cntl.valid { DrawnLater(l.cntl.localCid, 0, a, 0, b); }
    }
    if Step(l, e).0.intr.valid {
      StepCids(l, e, Intr);
      if l.intr.valid { DrawnLater(l.intr.localCid, 0, a, 0, b); }
    }
    if e.Ticked? && Opens(l) {
      OpensOne(l);
    }
  }

  lemma OpensOne(l: Link)
    requires Opens(l)
    ensures l.cntl.valid ==> !l.intr.valid
  {
  }

  lemma FreshMeans(l: Link, cid: word)
    requires FreshCid(l, cid)
    ensures (l.cntl.valid ==> l.cntl.localCid != cid) && (l.intr.valid ==> l.intr.localCid != cid)
  {
  }

  lemma DrawnLater(cid: word, a: nat, b: nat, c: nat, d: nat)
    requires Drawn(cid, a, b) && c <= a && b <= d
    ensures Drawn(cid, c, d)
  {
  }
}
