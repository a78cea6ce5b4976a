/**
 * Flow control: the host may only send as many ACL packets as it has been told are completed
 * (section 7.7.19 of the Bluetooth Core Specification, Volume 2 Part E). The fake Wiimotes count
 * the packets they take, and the manager reports and clears the counts once per timer period
 * (source/fake_wiimote_mgr.c, source/fake_wiimote.c).
 */
module Packets {
  import opened Bytes
  import opened FakeWiimote
  import opened Manager
  import opened Crypto
  import HciState

  // ---------------------------------------------------------------- one report

  /** What a report says about a handle. */
  function ReportedFor(es: seq<Entry>, h: word): nat {
    if es == [] then 0
    else ReportedFor(es[..|es| - 1], h) + if es[|es| - 1].handle == h then es[|es| - 1].count else 0
  }

  predicate DistinctHandles(ws: seq<Wiimote>) {
    forall i, j :: 0 <= i < j < |ws| && ws[i].Connected() && ws[j].Connected() ==>
      ws[i].link.conHandle != ws[j].link.conHandle
  }

  lemma ReportedForOneMore(es: seq<Entry>, e: Entry, h: word)
    ensures ReportedFor(es + [e], h) == ReportedFor(es, h) + if e.handle == h then e.count else 0
  {
    assert (es + [e])[..|es|] == es;
  }

  lemma {:induction false} NothingReported(ws: seq<Wiimote>, h: word)
    requires forall i :: 0 <= i < |ws| && ws[i].Connected() ==> ws[i].link.conHandle != h
    ensures ReportedFor(Entries(ws), h) == 0
  {
    if ws != [] {
      var w, rest := ws[|ws| - 1], ws[..|ws| - 1];
      NothingReported(rest, h);
      assert Entries(rest) + [] == Entries(rest);
      ReportedForOneMore(Entries(rest), Entry(w.link.conHandle, w.completed % 0x1_0000), h);
    }
  }

  /** A report carries, for each connected Wiimote, the low 16 bits of its count. */
  lemma {:induction false} EntriesReport(ws: seq<Wiimote>, i: nat)
    requires i < |ws| && ws[i].Connected() && DistinctHandles(ws)
    ensures ReportedFor(Entries(ws), ws[i].link.conHandle) == ws[i].completed % 0x1_0000
  {
    var n, h := |ws| - 1, ws[i].link.conHandle;
    var w, rest := ws[n], ws[..n];
    if i == n {
      NothingReported(rest, h);
    } else {
      EntriesReport(rest, i);
    }
    assert Entries(rest) + [] == Entries(rest);
    ReportedForOneMore(Entries(rest), Entry(w.link.conHandle, w.completed % 0x1_0000), h);
  }

  lemma {:induction false} TotalCounts(ws: seq<Wiimote>)
    ensures Total(ws) > 0 <==> exists i :: 0 <= i < |ws| && ws[i].Connected() && ws[i].completed > 0
  {
    if ws != [] {
      var n := |ws| - 1;
      TotalCounts(ws[..n]);
      assert forall i :: 0 <= i < n ==> ws[..n][i] == ws[i];
      if Total(ws) > 0 && !(ws[n].Connected() && ws[n].completed > 0) {
        var i :| 0 <= i < n && ws[..n][i].Connected() && ws[..n][i].completed > 0;
        assert ws[i].Connected() && ws[i].completed > 0;
      }
    }
  }

  /** Fewer than 65536 packets arrived at each connected Wiimote since the last report. */
  predicate Calm(ws: seq<Wiimote>) {
    forall i :: 0 <= i < |ws| && ws[i].Connected() ==> ws[i].completed < 0x1_0000
  }

  lemma {:induction false} CalmTotal(ws: seq<Wiimote>)
    requires Calm(ws)
    ensures Total(ws) <= 0xFFFF * |ws|
  {
    if ws != [] {
      CalmTotal(ws[..|ws| - 1]);
    }
  }

  /** An event is injected exactly if some connected Wiimote has taken a packet. */
  lemma EventIffTraffic(ws: seq<Wiimote>)
    requires Calm(ws) && |ws| == HciState.MAX_FAKE_WIIMOTES
    ensures CompletedEvent(ws).Some? <==> exists i :: 0 <= i < |ws| && ws[i].Connected() && ws[i].completed > 0
  {
    TotalCounts(ws);
    CalmTotal(ws);
  }

  /** Without the bound the 32-bit sum can come out as zero, and no event is sent although packets
      were taken and the counts are cleared. */
  lemma SumWrapsAround(ws: seq<Wiimote>)
    requires |ws| == 2 && ws[0].Connected() && ws[1].Connected()
    requires ws[0].completed == 0x8000_0000 && ws[1].completed == 0x8000_0000
    ensures CompletedEvent(ws) == None && forall i :: 0 <= i < 2 ==> Cleared(ws)[i].completed == 0
  {
    assert ws[..1][..0] == [];
    assert Total(ws[..1]) == 0x8000_0000;
    assert Total(ws) == 0x1_0000_0000;
  }

  // ---------------------------------------------------------------- one step

  /** The report the host gets in this step. */
  ghost function Report(t: Tables, s: Sys, e: Event): seq<Entry>
    requires t.Valid() && Enabled(t, s, e)
  {
    if e.Timer? && e.sent && CompletedEvent(TimerTicked(t, s, e)).Some?
    then CompletedEvent(TimerTicked(t, s, e)).value else []
  }

  predicate Takes(t: Tables, s: Sys, e: Event, i: nat)
    requires Enabled(t, s, e)
  {
    e.AclOut? && Receiver(s.ws, e.packet) == Some(i)
  }

  /** Wiimote i's count survives the step: the report fits its 16-bit field and is sent, or the
      counter does not overflow. */
  predicate Lossless(t: Tables, s: Sys, e: Event, i: nat)
    requires Enabled(t, s, e) && i < |s.ws|
  {
    && (e.Timer? ==>
          s.ws[i].completed == 0 || (s.ws[i].completed < 0x1_0000 && e.sent && Total(s.ws) % COUNTER > 0))
    && (Takes(t, s, e, i) ==> s.ws[i].completed + 1 < COUNTER)
  }

  lemma {:induction false} SameTotal(ws: seq<Wiimote>, ws': seq<Wiimote>)
    requires |ws'| == |ws|
    requires forall i :: 0 <= i < |ws| ==>
               && ws'[i].Connected() == ws[i].Connected()
               && (ws[i].Connected() ==> ws'[i].completed == ws[i].completed)
    ensures Total(ws') == Total(ws)
  {
    if ws != [] {
      SameTotal(ws[..|ws| - 1], ws'[..|ws| - 1]);
    }
  }

  lemma TimerConserves(t: Tables, s: Sys, e: Event, i: nat)
    requires Inv(t, s) && e.Timer? && Enabled(t, s, e) && i < |s.ws| && s.ws[i].Connected() && DistinctHandles(s.ws)
    ensures i < |Step(t, s, e).ws| && Step(t, s, e).ws[i].completed == 0
    ensures var reported := ReportedFor(Report(t, s, e), s.ws[i].link.conHandle);
            reported <= s.ws[i].completed && (reported == s.ws[i].completed <==> Lossless(t, s, e, i))
  {
    hide Sound, Owned, AfterAssign, TickAll, Enabled;
    var ws := TimerTicked(t, s, e);
    forall j | 0 <= j < |s.ws|
      ensures ws[j].Connected() == s.ws[j].Connected()
      ensures s.ws[j].Connected() ==>
                ws[j].completed == s.ws[j].completed && ws[j].link.conHandle == s.ws[j].link.conHandle
    {
      TimerWiimotes(t, s, e, j);
    }
    SameTotal(s.ws, ws);
    EntriesReport(ws, i);
  }

  lemma TakingConserves(t: Tables, s: Sys, packet: seq<byte>, i: nat)
    requires Inv(t, s) && AclExpected(t, s, packet) && i < |s.ws|
    ensures i < |HostData(t, s, packet).ws|
    ensures HostData(t, s, packet).ws[i].completed ==
              if Receiver(s.ws, packet) == Some(i) then (s.ws[i].completed + 1) % COUNTER else s.ws[i].completed
  {
    hide Sound, Owned, PacketExpected, OnPacket, WordAt;
    if Receiver(s.ws, packet) == Some(i) {
      PacketFrame(t, s.ws[i], packet[4..]);
    }
  }

  lemma OthersKeepCount(t: Tables, s: Sys, e: Event, i: nat)
    requires Inv(t, s) && Enabled(t, s, e) && !e.Timer? && !e.AclOut? && i < |s.ws|
    ensures i < |Step(t, s, e).ws| && Step(t, s, e).ws[i].completed == s.ws[i].completed
  {
    hide Sound, Owned, WordAt, HciState.CommandState, HciState.CommandWellFormed, HciState.EventExpected;
    match e
    case Command(data) => OwnedReset(s.ws, s.devs, 0);
    case _ =>
  }

  /** One step adds what it takes and subtracts what it reports; it loses the rest. */
  lemma StepConserves(t: Tables, s: Sys, e: Event, i: nat)
    requires Inv(t, s) && Enabled(t, s, e) && i < |s.ws| && s.ws[i].Connected() && DistinctHandles(s.ws)
    ensures i < |Step(t, s, e).ws|
    ensures var before := s.ws[i].completed + if Takes(t, s, e, i) then 1 else 0;
            var after := Step(t, s, e).ws[i].completed + ReportedFor(Report(t, s, e), s.ws[i].link.conHandle);
            after <= before && (after == before <==> Lossless(t, s, e, i))
  {
    hide Sound, Owned, Enabled, TimerTicked, Total, Entries, CompletedEvent, HostData, Removed, HostCommand,
         DisconnectOne, DistinctHandles, AfterAssign, AclExpected;
    if e.Timer? {
      TimerConserves(t, s, e, i);
    } else if e.AclOut? {
      assert AclExpected(t, s, e.packet) by { AclOutExpected(t, s, e); }
      TakingConserves(t, s, e.packet, i);
    } else {
      OthersKeepCount(t, s, e, i);
    }
  }

  lemma AclOutExpected(t: Tables, s: Sys, e: Event)
    requires e.AclOut? && Enabled(t, s, e)
    ensures AclExpected(t, s, e.packet)
  {
  }

  // ---------------------------------------------------------------- runs

  /** Wiimote i is connected under handle h in every state of the run, and no other connected
      Wiimote has that handle. */
  ghost predicate Stays(t: Tables, s: Sys, es: seq<Event>, i: nat, h: word)
    requires t.Valid() && Legal(t, s, es)
    decreases |es|
  {
    && i < |s.ws| && s.ws[i].Connected() && s.ws[i].link.conHandle == h && DistinctHandles(s.ws)
    && (es != [] ==> Stays(t, Step(t, s, es[0]), es[1..], i, h))
  }

  /** Packets Wiimote i takes during the run. */
  ghost function Received(t: Tables, s: Sys, es: seq<Event>, i: nat): nat
    requires t.Valid() && Legal(t, s, es)
    decreases |es|
  {
    if es == [] then 0
    else (if Takes(t, s, es[0], i) then 1 else 0) + Received(t, Step(t, s, es[0]), es[1..], i)
  }

  /** Packets the host is told are completed for handle h. */
  ghost function Reported(t: Tables, s: Sys, es: seq<Event>, h: word): nat
    requires t.Valid() && Legal(t, s, es)
    decreases |es|
  {
    if es == [] then 0
    else ReportedFor(Report(t, s, es[0]), h) + Reported(t, Step(t, s, es[0]), es[1..], h)
  }

  ghost predicate AllLossless(t: Tables, s: Sys, es: seq<Event>, i: nat)
    requires t.Valid() && Legal(t, s, es)
    decreases |es|
  {
    es == [] || (i < |s.ws| && Lossless(t, s, es[0], i) && AllLossless(t, Step(t, s, es[0]), es[1..], i))
  }

  /** The host is never promised more than was taken; it is told of every packet, or will be,
      exactly if no step of the run loses a count. */
  lemma {:induction false} CompletedPackets(t: Tables, s: Sys, es: seq<Event>, i: nat, h: word)
    requires Inv(t, s) && Legal(t, s, es) && Stays(t, s, es, i, h)
    ensures i < |After(t, s, es).ws|
    ensures var taken := s.ws[i].completed + Received(t, s, es, i);
            var accounted := Reported(t, s, es, h) + After(t, s, es).ws[i].completed;
            accounted <= taken && (accounted == taken <==> AllLossless(t, s, es, i))
    decreases |es|
  {
    hide Sound, Owned, Enabled, Step, Report, Takes, Lossless;
    if es != [] {
      StepKeepsInv(t, s, es[0]);
      StepConserves(t, s, es[0], i);
      CompletedPackets(t, Step(t, s, es[0]), es[1..], i, h);
    }
  }

  /** Every report is sent, and it never has to carry more than 16 bits. */
  ghost predicate CalmRun(t: Tables, s: Sys, es: seq<Event>)
    requires t.Valid() && Legal(t, s, es)
    decreases |es|
  {
    && Calm(s.ws)
    && (es != [] ==> (es[0].Timer? ==> es[0].sent) && CalmRun(t, Step(t, s, es[0]), es[1..]))
  }

  lemma CalmStep(t: Tables, s: Sys, e: Event, i: nat)
    requires Inv(t, s) && Enabled(t, s, e) && i < |s.ws| && s.ws[i].Connected()
    requires Calm(s.ws) && (e.Timer? ==> e.sent)
    ensures Lossless(t, s, e, i)
  {
    hide Sound, Owned, Enabled;
    TotalCounts(s.ws);
    CalmTotal(s.ws);
  }

  lemma {:induction false} CalmIsLossless(t: Tables, s: Sys, es: seq<Event>, i: nat, h: word)
    requires Inv(t, s) && Legal(t, s, es) && Stays(t, s, es, i, h) && CalmRun(t, s, es)
    ensures AllLossless(t, s, es, i)
    decreases |es|
  {
    hide Sound, Owned, Enabled, Step, Report, Takes, Lossless;
    if es != [] {
      StepKeepsInv(t, s, es[0]);
      CalmStep(t, s, es[0], i);
      CalmIsLossless(t, Step(t, s, es[0]), es[1..], i, h);
    }
  }

  /** From the accept on, packets taken are packets reported plus the current counter. */
  lemma ConservationSinceAccept(t: Tables, s: Sys, es: seq<Event>, i: nat, h: word)
    requires Inv(t, s) && Enabled(t, s, Accept(i)) && Legal(t, Step(t, s, Accept(i)), es)
    requires Stays(t, Step(t, s, Accept(i)), es, i, h) && CalmRun(t, Step(t, s, Accept(i)), es)
    ensures var s1 := Step(t, s, Accept(i));
            i < |After(t, s1, es).ws|
            && Received(t, s1, es, i) == Reported(t, s1, es, h) + After(t, s1, es).ws[i].completed
  {
    hide Owned, Legal, Received, Reported, AllLossless, CalmRun, After;
    var s1 := Step(t, s, Accept(i));
    assert Sound(t, s.ws[i]);
    assert s1.ws[i].completed == 0;
    StepKeepsInv(t, s, Accept(i));
    CalmIsLossless(t, s1, es, i, h);
    CompletedPackets(t, s1, es, i, h);
  }
}
