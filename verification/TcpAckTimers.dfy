/** The timers of the TCP ACK filter (aicwf_tcp_ack.c): whose ACKs they release, when a
    held ACK is left without one, and concrete runs that show what can go wrong. */
module TcpAckTimers {
  import opened Machine
  import opened TcpAckFilter
  import opened TcpAckFlow

  // ---------------------------------------------------------------------------
  // Timely runs
  // ---------------------------------------------------------------------------

  /** The clock has not gone back, and no timer is still pending that was armed longer
      ago than the ageing time; the driver arms them for 5 of those 4000 milliseconds. */
  predicate OnTime(s: Slot, now: int) {
    s.lastTime <= now && (s.timer.Some? ==> now <= s.timer.value - TIMER_DELAY + OLD_TIME)
  }

  ghost predicate Timely(s: System, e: Event) {
    e.Send? || e.SendOther? ==> forall i :: 0 <= i < |s.m.slots| ==> OnTime(s.m.slots[i], e.now)
  }

  ghost predicate TimelyRun(ss: seq<System>, es: seq<Event>, now: int) {
    Run(ss, es, now) && forall k {:trigger es[k]} :: 0 <= k < |es| ==> Timely(ss[k], es[k])
  }

  /** A timer is pending only for a held ACK of the flow that has the slot. */
  predicate TimerOk(s: Slot) {
    s.timer.Some? ==>
      s.timer.value <= s.lastTime + TIMER_DELAY && s.busy && s.msgbuf.Some? && s.msgbuf.value.flow == s.flow
  }

  ghost predicate TimersOk(m: Manager) {
    forall i :: 0 <= i < |m.slots| ==> TimerOk(m.slots[i])
  }

  lemma {:induction false} AgedAt(m: Manager, n: nat, now: int, i: nat)
    requires n <= |m.slots| && i < |m.slots|
    ensures AgeBelow(m, n, now).slots[i]
         == if i < n && Old(m.slots[i], now) then m.slots[i].(busy := false) else m.slots[i]
    decreases n
  {
    if n > 0 { AgedAt(AgeSlot(m, n - 1, now), n - 1, now, i); }
  }

  /** A slot is aged out only after its timer has fired. */
  lemma UpdatedTimers(m: Manager, now: int)
    requires TimersOk(m) && forall i :: 0 <= i < |m.slots| ==> OnTime(m.slots[i], now)
    ensures TimersOk(Updated(m, now))
    ensures forall i :: 0 <= i < |m.slots| ==> Updated(m, now).slots[i] == m.slots[i].(busy := Updated(m, now).slots[i].busy)
  {
    if now > m.lastTime + OLD_TIME {
      forall i | 0 <= i < |m.slots|
        ensures TimerOk(Updated(m, now).slots[i])
        ensures Updated(m, now).slots[i] == m.slots[i].(busy := Updated(m, now).slots[i].busy)
      {
        AgedAt(m.(lastTime := now), |m.slots|, now, i);
        assert TimerOk(m.slots[i]) && OnTime(m.slots[i], now);
      }
    }
  }

  lemma SubmittedTimers(m: Manager, b: Buf, now: int, winScale: nat)
    requires TableOk(m) && TimersOk(m) && forall i :: 0 <= i < |m.slots| ==> m.slots[i].lastTime <= now
    ensures TimersOk(Submitted(m, b, now, winScale))
  {
    AllocIff(m);
  }

  lemma StepTimers(s: System, e: Event)
    requires TableOk(s.m) && TimersOk(s.m) && Enabled(s, e) && Timely(s, e)
    ensures TimersOk(Apply(s, e).m)
  {
    match e
    case Send(b, now, winScale) =>
      UpdatedTimers(s.m, now);
      UpdatedOk(s.m, now);
      SubmittedTimers(Updated(s.m, now), b, now, winScale);
    case SendOther(b, now) => UpdatedTimers(s.m, now);
    case _ =>
  }

  lemma {:induction false} RunTimers(ss: seq<System>, es: seq<Event>, now: int, n: nat)
    requires TimelyRun(ss, es, now) && n <= |es|
    ensures TimersOk(ss[n].m)
    decreases n
  {
    if n > 0 {
      RunTimers(ss, es, now, n - 1);
      RunTableOk(ss, es, now, n - 1);
      StepTimers(ss[n - 1], es[n - 1]);
    }
  }

  /** In a timely run a timer only ever sends an ACK of the flow that has the slot, so
      never one left behind by an earlier flow. */
  lemma TimerSendsOwnFlow(ss: seq<System>, es: seq<Event>, now: int, n: nat)
    requires TimelyRun(ss, es, now) && n < |es| && es[n].Timer?
    ensures es[n].i < |ss[n].m.slots| && ss[n].m.slots[es[n].i].busy
    ensures forall b :: b in Added(ss[n].sent, ss[n + 1].sent) ==> b.flow == ss[n].m.slots[es[n].i].flow
  {
    RunTimers(ss, es, now, n);
    assert TimerOk(ss[n].m.slots[es[n].i]);
  }

  /** In a timely run a free slot has no timer pending; so a flow that claims it starts
      a history without one. */
  lemma FreeSlotHasNoTimer(ss: seq<System>, es: seq<Event>, now: int, n: nat, i: nat)
    requires TimelyRun(ss, es, now) && n <= |es| && i < |ss[n].m.slots|
    ensures !ss[n].m.slots[i].busy ==> ss[n].m.slots[i].timer == None
  {
    RunTimers(ss, es, now, n);
    assert TimerOk(ss[n].m.slots[i]);
  }

  /** A step that claims slot `i` passes its ACK on, records its number, and leaves the
      slot without a timer. */
  lemma ClaimStep(s: System, e: Event, i: nat)
    requires TableOk(s.m) && TimersOk(s.m) && Enabled(s, e) && Timely(s, e) && i < SLOTS
    requires e.Send? && !Updated(s.m, e.now).slots[i].busy && Apply(s, e).m.slots[i].busy
    ensures |Apply(s, e).m.slots| == SLOTS
    ensures Apply(s, e).m.slots[i].timer == None && Apply(s, e).m.slots[i].seqno == e.b.ack
    ensures Apply(s, e).passed == s.passed + [e.b]
  {
    UpdatedTimers(s.m, e.now);
    UpdatedOk(s.m, e.now);
    assert TimerOk(Updated(s.m, e.now).slots[i]);
  }

  /** In every timely run, from the step that claims a slot on and as long as the flow
      keeps it: the ACKs transmitted for the flow are in order, the claiming one first, if
      and only if none of them leaps when it is submitted; and any two less than a whole
      turn apart are in order if and only if the flow moved on by at most 2^31. */
  lemma ClaimedFlowInOrder(ss: seq<System>, es: seq<Event>, now: int, i: nat, a: nat, n: nat)
    requires TimelyRun(ss, es, now) && a < |es| && a + 1 + n <= |es| && i < SLOTS
    requires KeptThrough(ss, es, i, a + 1, n)
    requires |ss[a].m.slots| == SLOTS && es[a].Send? && !Updated(ss[a].m, es[a].now).slots[i].busy && ss[a + 1].m.slots[i].busy
    ensures ss[a + 1].m.slots[i].seqno == es[a].b.ack && ss[a + 1].passed == ss[a].passed + [es[a].b]
    ensures var slots, ps, outs := SlotStates(ss, es, i, a + 1, n), SlotEvents(ss, es, i, a + 1, n), SlotOuts(ss, es, i, a + 1, n);
            && ((forall l :: 0 <= l < n ==> InOrderAt(slots, outs, l))
                <==> (forall j, l :: 0 <= j < n && NextSent(ps, outs, j, l) ==> !Leaps(slots, ps, outs, j)))
            && (forall k, l :: 0 <= k < l < n && outs[k] != [] && outs[l] != [] ==> OrderedByTravel(slots, outs, k, l))
  {
    RunTimers(ss, es, now, a);
    RunTableOk(ss, es, now, a);
    ClaimStep(ss[a], es[a], i);
    FlowTransmitsInOrder(ss, es, now, i, a + 1, n);
    FlowOrderedByTravel(ss, es, now, i, a + 1, n);
  }

  // ---------------------------------------------------------------------------
  // Held ACKs with a timer
  // ---------------------------------------------------------------------------

  ghost predicate Armed(m: Manager) {
    forall i :: 0 <= i < |m.slots| ==> (m.slots[i].msgbuf.Some? ==> m.slots[i].timer.Some?)
  }

  /** The one step that leaves a held ACK without a timer: it fires while an earlier ACK
      of the slot is in transmission, or after the slot was aged out, and is not armed
      again. */
  predicate Stalls(s: System, e: Event) {
    && e.Timer? && e.i < |s.m.slots|
    && s.m.slots[e.i].msgbuf.Some? && (s.m.slots[e.i].inSend.Some? || !s.m.slots[e.i].busy)
  }

  lemma SubmittedArmed(m: Manager, b: Buf, now: int, winScale: nat)
    requires Armed(m)
    ensures Armed(Submitted(m, b, now, winScale))
  {
  }

  lemma UpdatedArmed(m: Manager, now: int)
    requires Armed(m)
    ensures Armed(Updated(m, now))
  {
    forall i | 0 <= i < |m.slots|
      ensures Updated(m, now).slots[i].msgbuf == m.slots[i].msgbuf && Updated(m, now).slots[i].timer == m.slots[i].timer
    {
      if now > m.lastTime + OLD_TIME { AgedAt(m.(lastTime := now), |m.slots|, now, i); }
    }
  }

  lemma StepKeepsArmed(s: System, e: Event)
    requires Armed(s.m) && Enabled(s, e)
    ensures Armed(Apply(s, e).m) <==> !Stalls(s, e)
  {
    match e
    case Send(b, now, winScale) =>
      UpdatedArmed(s.m, now);
      SubmittedArmed(Updated(s.m, now), b, now, winScale);
    case SendOther(b, now) => UpdatedArmed(s.m, now);
    case Timer(i) =>
      assert Stalls(s, e) ==> Apply(s, e).m.slots[i].msgbuf.Some?;
    case _ =>
  }

  /** Over any run every held ACK has its timer pending, at every point, if and only if no
      timer fires while an ACK of its slot is in transmission or after the slot was aged
      out. */
  lemma HeldAreArmedIff(ss: seq<System>, es: seq<Event>, now: int)
    requires Run(ss, es, now)
    ensures (forall n :: 0 <= n < |ss| ==> Armed(ss[n].m))
       <==> (forall n :: 0 <= n < |es| ==> !Stalls(ss[n], es[n]))
  {
    if forall n :: 0 <= n < |ss| ==> Armed(ss[n].m) {
      forall n | 0 <= n < |es| ensures !Stalls(ss[n], es[n]) {
        assert Armed(ss[n].m) && Armed(ss[n + 1].m);
        ArmedStep(ss, es, now, n);
      }
    }
    if forall n :: 0 <= n < |es| ==> !Stalls(ss[n], es[n]) {
      forall n | 0 <= n < |ss| ensures Armed(ss[n].m) {
        StaysArmed(ss, es, now, n);
      }
    }
  }

  /** In a timely run only the first of the two happens. */
  lemma TimelyStall(ss: seq<System>, es: seq<Event>, now: int, n: nat)
    requires TimelyRun(ss, es, now) && n < |es| && Stalls(ss[n], es[n])
    ensures ss[n].m.slots[es[n].i].inSend.Some?
  {
    TimerSendsOwnFlow(ss, es, now, n);
  }

  lemma ArmedStep(ss: seq<System>, es: seq<Event>, now: int, n: nat)
    requires Run(ss, es, now) && n < |es| && Armed(ss[n].m)
    ensures Armed(ss[n + 1].m) <==> !Stalls(ss[n], es[n])
  {
    StepKeepsArmed(ss[n], es[n]);
  }

  lemma {:induction false} StaysArmed(ss: seq<System>, es: seq<Event>, now: int, n: nat)
    requires Run(ss, es, now) && n <= |es|
    requires forall k {:trigger es[k]} :: 0 <= k < |es| ==> !Stalls(ss[k], es[k])
    ensures Armed(ss[n].m)
    decreases n
  {
    if n == 0 {
      StartsArmed(ss, es, now);
    } else {
      StaysArmed(ss, es, now, n - 1);
      ArmedStep(ss, es, now, n - 1);
    }
  }

  lemma StartsArmed(ss: seq<System>, es: seq<Event>, now: int)
    requires Run(ss, es, now)
    ensures Armed(ss[0].m)
  {
  }

  // ---------------------------------------------------------------------------
  // Concrete runs
  // ---------------------------------------------------------------------------

  /** Only slot 0 is taken, and holds `s`. */
  function Solo(s: Slot, now: int): Manager {
    Manager(Initial(now).m.slots[0 := s], 1, -1, now, true)
  }

  lemma SoloClaim(b: Buf, now: int)
    ensures var m := Updated(Initial(now).m, now);
            && Submitted(m, b, now, 0) == Solo(Claimed(m.slots[0], b, now, 0), now)
            && !Absorbs(m, b) && SubmitFrees(m, b) == None
  {
    var m := Initial(now).m;
    assert MatchFrom(m.slots, b.flow, 0) == |m.slots|;
  }

  lemma SoloSend(s: Slot, b: Buf, now: int)
    requires s.busy && s.flow == b.flow
    ensures var m := Updated(Solo(s, now), now);
            && Submitted(m, b, now, 0) == Solo(Handle(s, b, now), now)
            && (Absorbs(m, b) <==> !Passes(s, b)) && SubmitFrees(m, b) == HandleFrees(s, b)
  {
    var m := Solo(s, now);
    assert MatchFrom(m.slots, b.flow, 0) == 0;
    assert m.slots[0 := Handle(s, b, now)] == Initial(now).m.slots[0 := Handle(s, b, now)];
  }

  lemma SoloMove(s: Slot, b: Buf, now: int)
    ensures Moved(Solo(s, now), b) == Solo(Released(s, b), now)
  {
    assert Moved(Solo(s, now), b).slots == Solo(Released(s, b), now).slots;
  }

  lemma SoloTimer(s: Slot, now: int)
    ensures var m := Solo(s, now); m.(slots := m.slots[0 := Fire(m.slots[0])]) == Solo(Fire(s), now)
  {
    var m := Solo(s, now);
    assert m.slots[0 := Fire(s)] == Initial(now).m.slots[0 := Fire(s)];
  }

  /** Slot 0 after its flow claimed it and one more ACK passed. */
  function Passed(f: Flow, now: int): Slot {
    Slot(true, 0, false, 0, 1, now, None, None, Some(Buf(1, f, 0)), f, 0)
  }

  lemma RunSnoc(ss: seq<System>, es: seq<Event>, now: int, e: Event) returns (ss': seq<System>, s': System)
    requires TimelyRun(ss, es, now) && Enabled(ss[|es|], e) && Timely(ss[|es|], e)
    ensures s' == Apply(ss[|es|], e) && ss' == ss + [s'] && TimelyRun(ss', es + [e], now)
  {
    s' := Apply(ss[|es|], e);
    ss' := ss + [s'];
    var es' := es + [e];
    forall k {:trigger es'[k]} | 0 <= k < |es'|
      ensures Enabled(ss'[k], es'[k]) && ss'[k + 1] == Apply(ss'[k], es'[k]) && Timely(ss'[k], es'[k])
    {
      if k < |es| { assert es'[k] == es[k]; }
    }
  }

  lemma SoloTimely(x: System, s: Slot, now: int, e: Event)
    requires x.m == Solo(s, now) && s.lastTime == now && (s.timer.Some? ==> s.timer == Some(now + TIMER_DELAY))
    requires e.Send? && e.now == now
    ensures Timely(x, e)
  {
  }

  /** Two ACKs with the same number: the first claims the slot, the second passes. */
  lemma ClaimAndPass(f: Flow, now: int) returns (ss: seq<System>)
    ensures var b0, b1 := Buf(0, f, 0), Buf(1, f, 0);
            && TimelyRun(ss, [Send(b0, now, 0), Send(b1, now, 0)], now)
            && ss[2] == System(Solo(Passed(f, now), now), [b0, b1], [b0, b1], [], [])
  {
    var b0, b1 := Buf(0, f, 0), Buf(1, f, 0);
    var s1, s2;
    SoloClaim(b0, now);
    ss, s1 := RunSnoc([Initial(now)], [], now, Send(b0, now, 0));
    var c := Claimed(Initial(now).m.slots[0], b0, now, 0);
    SoloTimely(s1, c, now, Send(b1, now, 0));
    SoloSend(c, b1, now);
    assert Handle(c, b1, now) == Passed(f, now);
    ss, s2 := RunSnoc(ss, [] + [Send(b0, now, 0)], now, Send(b1, now, 0));
    assert [] + [Send(b0, now, 0)] + [Send(b1, now, 0)] == [Send(b0, now, 0), Send(b1, now, 0)];
  }

  /** One more ACK of the flow of slot 0, in a run. */
  lemma SoloRunSend(ss: seq<System>, es: seq<Event>, now: int, s: Slot, b: Buf) returns (ss': seq<System>)
    requires TimelyRun(ss, es, now) && ss[|es|].m == Solo(s, now) && s.lastTime == now
    requires s.timer.Some? ==> s.timer == Some(now + TIMER_DELAY)
    requires s.busy && s.flow == b.flow && !Passes(s, b)
    ensures TimelyRun(ss', es + [Send(b, now, 0)], now)
    ensures var x := ss[|es|];
            ss'[|es| + 1] == System(Solo(Handle(s, b, now), now), x.submitted + [b], x.passed, x.sent, x.freed + Log(HandleFrees(s, b)))
  {
    var s';
    SoloTimely(ss[|es|], s, now, Send(b, now, 0));
    SoloSend(s, b, now);
    ss', s' := RunSnoc(ss, es, now, Send(b, now, 0));
  }

  /** The recorded number only moves forward, yet two coalesced steps can carry the next
      transmission to where it compares as before the previous one. */
  lemma CoalescedCanWrap(f: Flow, now: int) returns (ss: seq<System>)
    ensures var b0, b1, b2, b3 := Buf(0, f, 0), Buf(1, f, 0), Buf(2, f, 0x7fff_ffff), Buf(3, f, 0xffff_fffe);
            var es := [Send(b0, now, 0), Send(b1, now, 0)] + [Move(b1)] + [Send(b2, now, 0)] + [Send(b3, now, 0)] + [Timer(0)];
            && TimelyRun(ss, es, now)
            && ss[6].passed == [b0, b1] && ss[6].sent == [b3] && !Before(b1.ack, b3.ack)
  {
    var b0, b1, b2, b3 := Buf(0, f, 0), Buf(1, f, 0), Buf(2, f, 0x7fff_ffff), Buf(3, f, 0xffff_fffe);
    var es := [Send(b0, now, 0), Send(b1, now, 0)];
    var idle := Passed(f, now).(inSend := None);
    var held2 := idle.(msgbuf := Some(b2), seqno := b2.ack, dropCnt := 1, timer := Some(now + TIMER_DELAY));
    var held3 := held2.(msgbuf := Some(b3), seqno := b3.ack, dropCnt := 2);
    var s';
    ss := ClaimAndPass(f, now);
    SoloMove(Passed(f, now), b1, now);
    ss, s' := RunSnoc(ss, es, now, Move(b1));
    ss := SoloRunSend(ss, es + [Move(b1)], now, idle, b2);
    assert Handle(idle, b2, now) == held2;
    ss := SoloRunSend(ss, es + [Move(b1)] + [Send(b2, now, 0)], now, held2, b3);
    assert Handle(held2, b3, now) == held3;
    SoloTimer(held3, now);
    ss, s' := RunSnoc(ss, es + [Move(b1)] + [Send(b2, now, 0)] + [Send(b3, now, 0)], now, Timer(0));
  }

  /** An ACK held while its predecessor is in transmission loses its timer, and is then
      held with nothing that would release it. */
  lemma HeldCanStall(f: Flow, now: int) returns (ss: seq<System>)
    ensures var b0, b1, b2 := Buf(0, f, 0), Buf(1, f, 0), Buf(2, f, 1);
            var es := [Send(b0, now, 0), Send(b1, now, 0)] + [Send(b2, now, 0)] + [Timer(0)] + [Move(b1)];
            && TimelyRun(ss, es, now) && |ss[5].m.slots| == SLOTS
            && var s := ss[5].m.slots[0];
               s.busy && s.msgbuf == Some(b2) && s.inSend == None && s.timer == None
  {
    var b0, b1, b2 := Buf(0, f, 0), Buf(1, f, 0), Buf(2, f, 1);
    var es := [Send(b0, now, 0), Send(b1, now, 0)];
    var held := Passed(f, now).(msgbuf := Some(b2), seqno := 1, dropCnt := 1, timer := Some(now + TIMER_DELAY));
    var s';
    ss := ClaimAndPass(f, now);
    ss := SoloRunSend(ss, es, now, Passed(f, now), b2);
    assert Handle(Passed(f, now), b2, now) == held;
    SoloTimer(held, now);
    ss, s' := RunSnoc(ss, es + [Send(b2, now, 0)], now, Timer(0));
    SoloMove(held.(timer := None), b1, now);
    ss, s' := RunSnoc(ss, es + [Send(b2, now, 0)] + [Timer(0)], now, Move(b1));
  }
}
