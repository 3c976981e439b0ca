/** One flow of the TCP ACK filter over time (aicwf_tcp_ack.c): the order of the ACKs
    transmitted for it, how many are held back, and the timers that release them. */
module TcpAckFlow {
  import opened Machine
  import opened TcpAckFilter

  // ---------------------------------------------------------------------------
  // The events of one slot
  // ---------------------------------------------------------------------------

  datatype SlotEvent = Ack(b: Buf, now: int, winScale: nat) | Fired | Push(n: u32) | Release(b: Buf) | Nothing

  function SlotApply(s: Slot, e: SlotEvent): Slot {
    match e
    case Ack(b, now, winScale) => Handle(Rescaled(s, winScale), b, now)
    case Fired => Fire(s)
    case Push(n) => Pushed(s, n)
    case Release(b) => Released(s, b)
    case Nothing => s
  }

  /** The ACKs that an event transmits. */
  function SlotSends(s: Slot, e: SlotEvent): seq<Buf> {
    match e
    case Ack(b, _, _) => if Passes(s, b) then [b] else []
    case Fired => if FireSends(s) then Log(s.msgbuf) else []
    case _ => []
  }

  /** The event is an ACK that the slot takes, as one not before its recorded number. */
  predicate Takes(s: Slot, e: SlotEvent) { e.Ack? && Before(s.seqno, e.b.ack) }

  /** An ACK that is taken and does not pass is held, with a timer pending. */
  lemma TakenIsHeld(s: Slot, e: SlotEvent)
    requires Takes(s, e) && SlotSends(s, e) == []
    ensures SlotApply(s, e).msgbuf == Some(e.b) && SlotApply(s, e).timer.Some?
  {
  }

  /** Any other event leaves a pending timer and the held ACK alone, or ends both. */
  lemma OthersLeaveTimer(s: Slot, e: SlotEvent)
    requires !Takes(s, e) || SlotSends(s, e) != []
    requires SlotApply(s, e).timer.Some?
    ensures s.timer.Some? && SlotApply(s, e).msgbuf == s.msgbuf && SlotApply(s, e).seqno == s.seqno
    ensures SlotSends(s, e) == []
  {
  }

  lemma CoalesceStep(s: Slot, e: SlotEvent)
    requires s.inSend == None && SlotApply(s, e).inSend == None && s.dropCnt >= 0
    ensures SlotApply(s, e).dropCnt == s.dropCnt + if Takes(s, e) then 1 else 0
    ensures Takes(s, e) ==> s.dropCnt + 1 < MAX_DROP
  {
  }

  /** The event that a step of the whole filter is for slot `i`. */
  function Project(s: System, e: Event, i: nat): SlotEvent {
    match e
    case Send(b, now, winScale) =>
      if MatchFrom(Updated(s.m, now).slots, b.flow, 0) == i then Ack(b, now, winScale) else Nothing
    case Psh(f, n) => if MatchFrom(s.m.slots, f, 0) == i then Push(n) else Nothing
    case Timer(j) => if i == j then Fired else Nothing
    case Move(b) => Release(b)
    case _ => Nothing
  }

  /** The flow of slot `i` keeps it through the step: it is not aged out. */
  predicate Keeps(s: System, e: Event, i: nat)
    requires i < |s.m.slots|
  {
    && s.m.enable && s.m.slots[i].busy && !e.Deinit?
    && (e.Send? || e.SendOther? ==> Updated(s.m, e.now).slots[i].busy)
  }

  lemma {:induction false} AgeBelowAt(m: Manager, n: nat, now: int, i: nat)
    requires n <= |m.slots| && i < |m.slots|
    ensures AgeBelow(m, n, now).slots[i].busy ==> AgeBelow(m, n, now).slots[i] == m.slots[i]
    decreases n
  {
    if n > 0 { AgeBelowAt(AgeSlot(m, n - 1, now), n - 1, now, i); }
  }

  lemma UpdatedAt(m: Manager, now: int, i: nat)
    requires i < |m.slots| && Updated(m, now).slots[i].busy
    ensures Updated(m, now).slots[i] == m.slots[i]
  {
    AgeBelowAt(m.(lastTime := now), |m.slots|, now, i);
  }

  /** A submission touches only the slot of its flow, and a free one. */
  lemma SubmittedAt(m: Manager, b: Buf, now: int, winScale: nat, i: nat)
    requires TableOk(m) && m.enable && i < SLOTS && m.slots[i].busy
    ensures Submitted(m, b, now, winScale).slots[i]
         == if MatchFrom(m.slots, b.flow, 0) == i then Handle(Rescaled(m.slots[i], winScale), b, now) else m.slots[i]
  {
    AllocIff(m);
  }

  /** A slot that is kept changes exactly by its own event, so its history
      describes its flow in the running filter. */
  lemma KeptSlotStep(s: System, e: Event, i: nat)
    requires TableOk(s.m) && Enabled(s, e) && i < SLOTS && Keeps(s, e, i)
    ensures Apply(s, e).m.slots[i] == SlotApply(s.m.slots[i], Project(s, e, i))
  {
    match e
    case Send(b, now, winScale) =>
      UpdatedAt(s.m, now, i);
      UpdatedOk(s.m, now);
      SubmittedAt(Updated(s.m, now), b, now, winScale, i);
    case SendOther(b, now) => UpdatedAt(s.m, now, i);
    case _ =>
  }

  // ---------------------------------------------------------------------------
  // Histories of one slot
  // ---------------------------------------------------------------------------

  /** `slots` are the successive states of a slot under `ps`, `outs` what each event
      transmits; only a pending timer fires. */
  ghost predicate History(slots: seq<Slot>, ps: seq<SlotEvent>, outs: seq<seq<Buf>>) {
    && |slots| == |ps| + 1 && |outs| == |ps|
    && forall k {:trigger ps[k]} :: 0 <= k < |ps| ==> HistoryAt(slots, ps, outs, k)
  }

  ghost predicate HistoryAt(slots: seq<Slot>, ps: seq<SlotEvent>, outs: seq<seq<Buf>>, k: nat)
    requires k < |ps| && |slots| == |ps| + 1 && |outs| == |ps|
  {
    && slots[k + 1] == SlotApply(slots[k], ps[k]) && outs[k] == SlotSends(slots[k], ps[k])
    && (ps[k].Fired? ==> slots[k].timer.Some?)
  }

  /** The position of the recorded number after `n` events: how far it has moved
      forward in all, counted without wrapping. */
  function Travel(slots: seq<Slot>, n: nat): int
    requires n < |slots|
  {
    if n == 0 then slots[0].seqno else Travel(slots, n - 1) + Forward(slots[n - 1].seqno, slots[n].seqno)
  }

  /** No event moves the recorded number back: each moves it forward by at most 2^31. */
  lemma RecordedAdvances(slots: seq<Slot>, ps: seq<SlotEvent>, outs: seq<seq<Buf>>, k: nat)
    requires History(slots, ps, outs) && k < |ps|
    ensures Before(slots[k].seqno, slots[k + 1].seqno)
    ensures Travel(slots, k) <= Travel(slots, k + 1) <= Travel(slots, k) + HALF
    ensures Takes(slots[k], ps[k]) ==> slots[k + 1].seqno == ps[k].b.ack
    ensures !Takes(slots[k], ps[k]) ==> slots[k + 1].seqno == slots[k].seqno
  {
    assert HistoryAt(slots, ps, outs, k);
    BeforeIsForward(slots[k].seqno, slots[k + 1].seqno);
  }

  lemma ForwardMoves(pos: int, a: u32, b: u32)
    requires a == pos % U32
    ensures (pos + Forward(a, b)) % U32 == b
  {
  }

  lemma {:induction false} TravelIsRecorded(slots: seq<Slot>, n: nat)
    requires n < |slots|
    ensures Travel(slots, n) % U32 == slots[n].seqno
    decreases n
  {
    if n > 0 {
      TravelIsRecorded(slots, n - 1);
      ForwardMoves(Travel(slots, n - 1), slots[n - 1].seqno, slots[n].seqno);
    }
  }

  lemma {:induction false} TravelGrows(slots: seq<Slot>, ps: seq<SlotEvent>, outs: seq<seq<Buf>>, k: nat, l: nat)
    requires History(slots, ps, outs) && k <= l <= |ps|
    ensures Travel(slots, k) <= Travel(slots, l)
    decreases l
  {
    if k < l {
      TravelGrows(slots, ps, outs, k, l - 1);
      RecordedAdvances(slots, ps, outs, l - 1);
    }
  }

  /** The number of the last ACK transmitted before event `n`, or else `start`. */
  function LastSent(outs: seq<seq<Buf>>, n: nat, start: u32): u32
    requires n <= |outs|
  {
    if n == 0 then start
    else if outs[n - 1] != [] then outs[n - 1][|outs[n - 1]| - 1].ack
    else LastSent(outs, n - 1, start)
  }

  lemma {:induction false} LastSentSame(outs: seq<seq<Buf>>, j: nat, n: nat, start: u32)
    requires j <= n <= |outs| && forall k :: j <= k < n ==> outs[k] == []
    ensures LastSent(outs, n, start) == LastSent(outs, j, start)
    decreases n
  {
    if j < n { LastSentSame(outs, j, n - 1, start); }
  }

  /** The ACK behind a pending timer is the last one taken: it was submitted by event
      `j`, and nothing was transmitted since. */
  lemma {:induction false} HeldFrom(slots: seq<Slot>, ps: seq<SlotEvent>, outs: seq<seq<Buf>>, n: nat) returns (j: nat)
    requires History(slots, ps, outs) && n <= |ps| && slots[0].timer == None && slots[n].timer.Some?
    ensures j < n && Takes(slots[j], ps[j]) && slots[n].msgbuf == Some(ps[j].b) && slots[n].seqno == ps[j].b.ack
    ensures forall k :: j <= k < n ==> outs[k] == []
    decreases n
  {
    assert HistoryAt(slots, ps, outs, n - 1);
    var s, e := slots[n - 1], ps[n - 1];
    if Takes(s, e) && outs[n - 1] == [] {
      TakenIsHeld(s, e);
      RecordedAdvances(slots, ps, outs, n - 1);
      j := n - 1;
    } else {
      OthersLeaveTimer(s, e);
      j := HeldFrom(slots, ps, outs, n - 1);
    }
  }

  /** Every transmission is of an ACK taken when it was submitted, by event `j`; it
      carries the recorded number, and nothing was transmitted in between. */
  lemma SentIsTaken(slots: seq<Slot>, ps: seq<SlotEvent>, outs: seq<seq<Buf>>, l: nat) returns (j: nat)
    requires History(slots, ps, outs) && l < |ps| && slots[0].timer == None && outs[l] != []
    ensures j <= l && Takes(slots[j], ps[j]) && outs[l] == [ps[j].b] && slots[l + 1].seqno == ps[j].b.ack
    ensures forall k :: j <= k < l ==> outs[k] == []
  {
    assert HistoryAt(slots, ps, outs, l);
    if ps[l].Ack? {
      j := l;
    } else {
      j := HeldFrom(slots, ps, outs, l);
    }
  }

  /** The ACK of event `j`, which the slot takes, compares as before the one last
      transmitted. */
  predicate Leaps(slots: seq<Slot>, ps: seq<SlotEvent>, outs: seq<seq<Buf>>, j: nat)
    requires |slots| == |ps| + 1 && |outs| == |ps| && j < |ps|
  {
    Takes(slots[j], ps[j]) && !Before(LastSent(outs, j, slots[0].seqno), ps[j].b.ack)
  }

  /** The ACK of event `j` is the next one transmitted, by event `l`. */
  ghost predicate NextSent(ps: seq<SlotEvent>, outs: seq<seq<Buf>>, j: nat, l: nat)
    requires |outs| == |ps|
  {
    j <= l < |ps| && ps[j].Ack? && outs[l] == [ps[j].b] && forall k :: j <= k < l ==> outs[k] == []
  }

  ghost predicate InOrderAt(slots: seq<Slot>, outs: seq<seq<Buf>>, l: nat)
    requires l < |outs| < |slots|
  {
    outs[l] != [] ==> Before(LastSent(outs, l, slots[0].seqno), outs[l][0].ack)
  }

  /** Whether a transmission, direct or by the timer, is in order was decided when its
      ACK was submitted: exactly the transmissions of leaping ACKs are out of order. */
  lemma OrderDecidedAtSubmission(slots: seq<Slot>, ps: seq<SlotEvent>, outs: seq<seq<Buf>>)
    requires History(slots, ps, outs) && slots[0].timer == None
    ensures (forall l :: 0 <= l < |ps| ==> InOrderAt(slots, outs, l))
       <==> (forall j, l :: 0 <= j < |ps| && NextSent(ps, outs, j, l) ==> !Leaps(slots, ps, outs, j))
  {
    var start := slots[0].seqno;
    if forall l :: 0 <= l < |ps| ==> InOrderAt(slots, outs, l) {
      forall j, l | 0 <= j < |ps| && NextSent(ps, outs, j, l) ensures !Leaps(slots, ps, outs, j) {
        assert InOrderAt(slots, outs, l);
        LastSentSame(outs, j, l, start);
      }
    }
    if forall j, l :: 0 <= j < |ps| && NextSent(ps, outs, j, l) ==> !Leaps(slots, ps, outs, j) {
      forall l | 0 <= l < |ps| ensures InOrderAt(slots, outs, l) {
        if outs[l] != [] {
          var j := SentIsTaken(slots, ps, outs, l);
          assert NextSent(ps, outs, j, l);
          LastSentSame(outs, j, l, start);
        }
      }
    }
  }

  lemma DistanceOfResidues(x: int, y: int)
    ensures (y % U32 - x % U32) % U32 == (y - x) % U32
  {
    var q := y / U32 - x / U32;
    assert y - x == (y % U32 - x % U32) + q * U32;
  }

  lemma ResidueOrder(x: int, y: int)
    requires x <= y < x + U32
    ensures Before(x % U32, y % U32) <==> y - x <= HALF
  {
    DistanceOfResidues(x, y);
    BeforeIsForward(x % U32, y % U32);
  }

  /** Two transmissions, less than a whole turn apart, are in order exactly when the flow
      moved on by at most 2^31 between them. */
  ghost predicate OrderedByTravel(slots: seq<Slot>, outs: seq<seq<Buf>>, k: nat, l: nat)
    requires k < l < |outs| < |slots| && outs[k] != [] && outs[l] != []
  {
    var d := Travel(slots, l + 1) - Travel(slots, k + 1);
    d >= 0 && (d < U32 ==> (Before(outs[k][0].ack, outs[l][0].ack) <==> d <= HALF))
  }

  lemma OrderByTravel(slots: seq<Slot>, ps: seq<SlotEvent>, outs: seq<seq<Buf>>, k: nat, l: nat)
    requires History(slots, ps, outs) && slots[0].timer == None && k < l < |ps| && outs[k] != [] && outs[l] != []
    ensures OrderedByTravel(slots, outs, k, l)
  {
    var i := SentIsTaken(slots, ps, outs, k);
    var j := SentIsTaken(slots, ps, outs, l);
    TravelIsRecorded(slots, k + 1);
    TravelIsRecorded(slots, l + 1);
    TravelGrows(slots, ps, outs, k + 1, l + 1);
    if Travel(slots, l + 1) < Travel(slots, k + 1) + U32 {
      ResidueOrder(Travel(slots, k + 1), Travel(slots, l + 1));
    }
  }

  /** ACKs taken by the first `n` events. */
  function Coalesced(slots: seq<Slot>, ps: seq<SlotEvent>, n: nat): nat
    requires |slots| == |ps| + 1 && n <= |ps|
  {
    if n == 0 then 0 else Coalesced(slots, ps, n - 1) + if Takes(slots[n - 1], ps[n - 1]) then 1 else 0
  }

  lemma {:induction false} HistoryCoalesces(slots: seq<Slot>, ps: seq<SlotEvent>, outs: seq<seq<Buf>>, n: nat)
    requires History(slots, ps, outs) && n <= |ps| && slots[0].dropCnt >= 0
    requires forall k :: 0 <= k <= n ==> slots[k].inSend == None
    ensures slots[n].dropCnt == slots[0].dropCnt + Coalesced(slots, ps, n)
    ensures Coalesced(slots, ps, n) <= MAX_DROP - 1
    decreases n
  {
    if n > 0 {
      HistoryCoalesces(slots, ps, outs, n - 1);
      assert HistoryAt(slots, ps, outs, n - 1);
      CoalesceStep(slots[n - 1], ps[n - 1]);
    }
  }

  // ---------------------------------------------------------------------------
  // Slots of a running filter
  // ---------------------------------------------------------------------------

  /** The slot's flow keeps it through steps `a` up to `a + n`. */
  ghost predicate KeptThrough(ss: seq<System>, es: seq<Event>, i: nat, a: nat, n: nat)
    requires |ss| == |es| + 1 && a + n <= |es|
  {
    && (forall k {:trigger ss[k]} :: a <= k <= a + n ==> i < |ss[k].m.slots|)
    && (forall k {:trigger es[k]} :: a <= k < a + n ==> Keeps(ss[k], es[k], i))
  }

  /** The states of slot `i` of a run, the events for it, and the ACKs that the steps
      transmit for its flow: those appended to the passed buffers when the ACK belongs
      to that slot, or to the sent ones when the slot's timer fires. */
  ghost function SlotStates(ss: seq<System>, es: seq<Event>, i: nat, a: nat, n: nat): (slots: seq<Slot>)
    requires |ss| == |es| + 1 && a + n <= |es| && KeptThrough(ss, es, i, a, n)
    ensures |slots| == n + 1 && forall k :: 0 <= k <= n ==> i < |ss[a + k].m.slots| && slots[k] == ss[a + k].m.slots[i]
  {
    seq(n + 1, k requires 0 <= k <= n => ss[a + k].m.slots[i])
  }

  ghost function SlotEvents(ss: seq<System>, es: seq<Event>, i: nat, a: nat, n: nat): (ps: seq<SlotEvent>)
    requires |ss| == |es| + 1 && a + n <= |es|
    ensures |ps| == n && forall k :: 0 <= k < n ==> ps[k] == Project(ss[a + k], es[a + k], i)
  {
    seq(n, k requires 0 <= k < n => Project(ss[a + k], es[a + k], i))
  }

  ghost function SlotOuts(ss: seq<System>, es: seq<Event>, i: nat, a: nat, n: nat): (outs: seq<seq<Buf>>)
    requires |ss| == |es| + 1 && a + n <= |es|
    ensures |outs| == n && forall k :: 0 <= k < n ==> outs[k] == SlotOut(ss[a + k], es[a + k], ss[a + k + 1], i)
  {
    seq(n, k requires 0 <= k < n => SlotOut(ss[a + k], es[a + k], ss[a + k + 1], i))
  }

  function SlotOut(s: System, e: Event, s': System, i: nat): seq<Buf> {
    match Project(s, e, i)
    case Ack(_, _, _) => Added(s.passed, s'.passed)
    case Fired => Added(s.sent, s'.sent)
    case _ => []
  }

  function Added(l: seq<Buf>, l': seq<Buf>): seq<Buf> { if |l| <= |l'| then l'[|l|..] else [] }

  lemma SlotOutIs(s: System, e: Event, i: nat)
    requires TableOk(s.m) && Enabled(s, e) && i < SLOTS && Keeps(s, e, i)
    ensures SlotOut(s, e, Apply(s, e), i) == SlotSends(s.m.slots[i], Project(s, e, i))
  {
    match e
    case Send(b, now, winScale) =>
      UpdatedAt(s.m, now, i);
      UpdatedEnable(s.m, now);
    case _ =>
  }

  lemma RunTableOk(ss: seq<System>, es: seq<Event>, now: int, n: nat)
    requires Run(ss, es, now) && n <= |es|
    ensures TableOk(ss[n].m)
  {
    RunInv(ss, es, now, n);
  }

  /** A step of the run is a step of the slot's history. */
  lemma HistoryStep(ss: seq<System>, es: seq<Event>, now: int, i: nat, k: nat)
    requires Run(ss, es, now) && k < |es| && i < |ss[k].m.slots| && Keeps(ss[k], es[k], i)
    ensures i < |ss[k + 1].m.slots|
    ensures ss[k + 1].m.slots[i] == SlotApply(ss[k].m.slots[i], Project(ss[k], es[k], i))
    ensures SlotOut(ss[k], es[k], ss[k + 1], i) == SlotSends(ss[k].m.slots[i], Project(ss[k], es[k], i))
    ensures Project(ss[k], es[k], i).Fired? ==> ss[k].m.slots[i].timer.Some?
  {
    RunTableOk(ss, es, now, k);
    RunTableOk(ss, es, now, k + 1);
    KeptSlotStep(ss[k], es[k], i);
    SlotOutIs(ss[k], es[k], i);
  }

  lemma HistoryInRunAt(ss: seq<System>, es: seq<Event>, now: int, i: nat, a: nat, n: nat, k: nat)
    requires Run(ss, es, now) && a + n <= |es| && KeptThrough(ss, es, i, a, n) && k < n
    ensures HistoryAt(SlotStates(ss, es, i, a, n), SlotEvents(ss, es, i, a, n), SlotOuts(ss, es, i, a, n), k)
  {
    HistoryStep(ss, es, now, i, a + k);
  }

  lemma HistoryInRun(ss: seq<System>, es: seq<Event>, now: int, i: nat, a: nat, n: nat)
    requires Run(ss, es, now) && a + n <= |es| && KeptThrough(ss, es, i, a, n)
    ensures History(SlotStates(ss, es, i, a, n), SlotEvents(ss, es, i, a, n), SlotOuts(ss, es, i, a, n))
  {
    forall k | 0 <= k < n
      ensures HistoryAt(SlotStates(ss, es, i, a, n), SlotEvents(ss, es, i, a, n), SlotOuts(ss, es, i, a, n), k)
    {
      HistoryInRunAt(ss, es, now, i, a, n, k);
    }
  }

  /** In every run of the filter, from a state in which a flow's slot has no timer
      pending and as long as the flow keeps the slot: the ACKs transmitted for it, by
      either path, are in modulo-2^32 order if and only if none of them leaps over the
      one last transmitted when it is submitted. */
  lemma FlowTransmitsInOrder(ss: seq<System>, es: seq<Event>, now: int, i: nat, a: nat, n: nat)
    requires Run(ss, es, now) && a + n <= |es| && KeptThrough(ss, es, i, a, n) && ss[a].m.slots[i].timer == None
    ensures var slots, ps, outs := SlotStates(ss, es, i, a, n), SlotEvents(ss, es, i, a, n), SlotOuts(ss, es, i, a, n);
            && (forall k :: 0 <= k < n ==> Before(slots[k].seqno, slots[k + 1].seqno))
            && ((forall l :: 0 <= l < n ==> InOrderAt(slots, outs, l))
                <==> (forall j, l :: 0 <= j < n && NextSent(ps, outs, j, l) ==> !Leaps(slots, ps, outs, j)))
  {
    var slots, ps, outs := SlotStates(ss, es, i, a, n), SlotEvents(ss, es, i, a, n), SlotOuts(ss, es, i, a, n);
    HistoryInRun(ss, es, now, i, a, n);
    OrderDecidedAtSubmission(slots, ps, outs);
    forall k | 0 <= k < n ensures Before(slots[k].seqno, slots[k + 1].seqno) {
      RecordedAdvances(slots, ps, outs, k);
    }
  }

  lemma FlowOrderedByTravel(ss: seq<System>, es: seq<Event>, now: int, i: nat, a: nat, n: nat)
    requires Run(ss, es, now) && a + n <= |es| && KeptThrough(ss, es, i, a, n) && ss[a].m.slots[i].timer == None
    ensures var slots, outs := SlotStates(ss, es, i, a, n), SlotOuts(ss, es, i, a, n);
            forall k, l :: 0 <= k < l < n && outs[k] != [] && outs[l] != [] ==> OrderedByTravel(slots, outs, k, l)
  {
    var slots, ps, outs := SlotStates(ss, es, i, a, n), SlotEvents(ss, es, i, a, n), SlotOuts(ss, es, i, a, n);
    HistoryInRun(ss, es, now, i, a, n);
    forall k, l | 0 <= k < l < n && outs[k] != [] && outs[l] != [] ensures OrderedByTravel(slots, outs, k, l) {
      OrderByTravel(slots, ps, outs, k, l);
    }
  }

  ghost predicate CountsOk(m: Manager) { forall i :: 0 <= i < |m.slots| ==> m.slots[i].dropCnt >= 0 }

  lemma {:induction false} AgeBelowCounts(m: Manager, n: nat, now: int)
    requires n <= |m.slots| && CountsOk(m)
    ensures CountsOk(AgeBelow(m, n, now))
    decreases n
  {
    if n > 0 { AgeBelowCounts(AgeSlot(m, n - 1, now), n - 1, now); }
  }

  lemma SubmitCounts(m: Manager, b: Buf, now: int, winScale: nat)
    requires CountsOk(m)
    ensures CountsOk(Submitted(m, b, now, winScale))
  {
  }

  lemma StepCounts(s: System, e: Event)
    requires Enabled(s, e) && CountsOk(s.m)
    ensures CountsOk(Apply(s, e).m)
  {
    match e
    case Send(b, now, winScale) =>
      AgeBelowCounts(s.m.(lastTime := now), |s.m.slots|, now);
      SubmitCounts(Updated(s.m, now), b, now, winScale);
    case SendOther(b, now) => AgeBelowCounts(s.m.(lastTime := now), |s.m.slots|, now);
    case _ =>
  }

  lemma {:induction false} RunCounts(ss: seq<System>, es: seq<Event>, now: int, n: nat)
    requires Run(ss, es, now) && n <= |es|
    ensures CountsOk(ss[n].m)
    decreases n
  {
    if n > 0 {
      RunCounts(ss, es, now, n - 1);
      StepCounts(ss[n - 1], es[n - 1]);
    }
  }

  /** In every run of the filter, while a flow keeps its slot and nothing of it is in
      transmission, at most `MAX_DROP - 1` of its ACKs are taken in order, that is,
      kept back: the next one would have to pass. */
  lemma CoalescingIsBounded(ss: seq<System>, es: seq<Event>, now: int, i: nat, a: nat, n: nat)
    requires Run(ss, es, now) && a + n <= |es| && KeptThrough(ss, es, i, a, n)
    requires forall k {:trigger ss[k]} :: a <= k <= a + n ==> ss[k].m.slots[i].inSend == None
    ensures Coalesced(SlotStates(ss, es, i, a, n), SlotEvents(ss, es, i, a, n), n) <= MAX_DROP - 1
  {
    HistoryInRun(ss, es, now, i, a, n);
    RunCounts(ss, es, now, a);
    HistoryCoalesces(SlotStates(ss, es, i, a, n), SlotEvents(ss, es, i, a, n), SlotOuts(ss, es, i, a, n), n);
  }

  // ---------------------------------------------------------------------------
  // What an ACK of a kept slot meets
  // ---------------------------------------------------------------------------

  /** Slot `i` of an enabled filter is taken by the flow of `b`, stays taken through the
      submission of `b` at `now`, and `b` is not before the recorded number. */
  ghost predicate Next(s: System, i: nat, b: Buf, now: int) {
    && TableOk(s.m) && s.m.enable && i < SLOTS
    && s.m.slots[i].busy && s.m.slots[i].flow == b.flow && Updated(s.m, now).slots[i].busy
    && Before(s.m.slots[i].seqno, b.ack)
  }

  lemma OwnerIsMatched(m: Manager, i: nat)
    requires TableOk(m) && i < SLOTS && m.slots[i].busy
    ensures MatchFrom(m.slots, m.slots[i].flow, 0) == i
  {
  }

  lemma NextIsMatched(s: System, i: nat, b: Buf, now: int)
    requires Next(s, i, b, now)
    ensures TableOk(Updated(s.m, now)) && Updated(s.m, now).enable
    ensures Updated(s.m, now).slots[i] == s.m.slots[i] && MatchFrom(Updated(s.m, now).slots, b.flow, 0) == i
  {
    UpdatedAt(s.m, now, i);
    UpdatedOk(s.m, now);
    OwnerIsMatched(Updated(s.m, now), i);
  }

  /** `s1` and `s2` are the states after data with PSH up to `n` came for the flow of `b`,
      and after `b` was submitted then. */
  ghost predicate PshThenSend(s: System, s1: System, s2: System, n: u32, b: Buf, now: int, winScale: nat) {
    s1 == Apply(s, Psh(b.flow, n)) && s2 == Apply(s1, Send(b, now, winScale))
  }

  /** Received data with PSH release the next ACK that covers them at once, also while
      another is in transmission. */
  lemma PshReleases(s: System, s1: System, s2: System, i: nat, n: u32, b: Buf, now: int, winScale: nat)
    requires PshThenSend(s, s1, s2, n, b, now, winScale) && Next(s, i, b, now) && !Before(b.ack, n)
    ensures s2.passed == s.passed + [b] && i < |s2.m.slots|
    ensures s2.m.slots[i].msgbuf == None && s2.m.slots[i].inSend == Some(b) && s2.m.slots[i].seqno == b.ack
    ensures !s2.m.slots[i].pshFlag
  {
    PshRecorded(s, s1, i, n, b, now);
    NextIsMatched(s1, i, b, now);
  }

  lemma PshRecorded(s: System, s1: System, i: nat, n: u32, b: Buf, now: int)
    requires Next(s, i, b, now) && s1 == Apply(s, Psh(b.flow, n))
    ensures Next(s1, i, b, now) && s1.m.slots[i].pshFlag && s1.m.slots[i].pshSeq == n && s1.passed == s.passed
  {
    OwnerIsMatched(s.m, i);
    StepTableOk(s, Psh(b.flow, n));
    UpdatedSame(s.m, s1.m, now, i);
  }

  /** Ageing looks at occupancy and times only. */
  lemma UpdatedSame(m: Manager, m': Manager, now: int, i: nat)
    requires |m'.slots| == |m.slots| && i < |m.slots| && m'.lastTime == m.lastTime
    requires m'.slots[i].busy == m.slots[i].busy && m'.slots[i].lastTime == m.slots[i].lastTime
    ensures Updated(m', now).slots[i].busy == Updated(m, now).slots[i].busy
  {
    AgeMeaning(m, now, i);
    AgeMeaning(m', now, i);
  }

  /** Ageing frees a slot exactly when neither the table nor the slot has been touched for
      4000 milliseconds. */
  lemma AgeMeaning(m: Manager, now: int, i: nat)
    requires i < |m.slots|
    ensures Updated(m, now).slots[i].busy <==>
              m.slots[i].busy && (now <= m.lastTime + 4000 || now <= m.slots[i].lastTime + 4000)
  {
    if now > m.lastTime + OLD_TIME {
      AgedBusy(m.(lastTime := now), |m.slots|, now, i);
    }
  }

  lemma {:induction false} AgedBusy(m: Manager, n: nat, now: int, i: nat)
    requires n <= |m.slots| && i < |m.slots|
    ensures AgeBelow(m, n, now).slots[i].busy <==>
              m.slots[i].busy && (i >= n || now <= m.slots[i].lastTime + 4000)
    decreases n
  {
    if n > 0 { AgedBusy(AgeSlot(m, n - 1, now), n - 1, now, i); }
  }

  /** Every submission of a flow, in order or not, restarts the ageing of its slot; so
      does the claim. */
  lemma SubmissionRestartsAge(s: System, s': System, i: nat, b: Buf, now: int, winScale: nat, later: int)
    requires TableOk(s.m) && s.m.enable && i < SLOTS && s' == Apply(s, Send(b, now, winScale))
    requires |s'.m.slots| == SLOTS && s'.m.slots[i].busy && s'.m.slots[i].flow == b.flow && later <= now + 4000
    ensures Updated(s'.m, later).slots[i].busy
  {
    UpdatedOk(s.m, now);
    SubmissionStamps(Updated(s.m, now), i, b, now, winScale);
    AgeMeaning(s'.m, later, i);
  }

  lemma SubmissionStamps(m: Manager, i: nat, b: Buf, now: int, winScale: nat)
    requires TableOk(m) && m.enable && i < SLOTS
    requires Owns(Submitted(m, b, now, winScale).slots[i], b.flow)
    ensures Submitted(m, b, now, winScale).slots[i].lastTime == now
  {
    AllocIff(m);
    if Owns(m.slots[i], b.flow) {
      OwnerIsMatched(m, i);
    }
  }

  /** An ACK in order that no received PSH releases is held, in place of the one held
      before, whenever another is in transmission or fewer than ten have come since the
      last transmission; with neither it passes. */
  lemma WithoutPshHeldIff(s: System, i: nat, b: Buf, now: int, winScale: nat)
    requires Next(s, i, b, now) && !s.m.slots[i].pshFlag
    ensures var s', c := Apply(s, Send(b, now, winScale)), s.m.slots[i];
            if c.inSend != None || c.dropCnt + 1 < 10
            then s'.passed == s.passed && s'.m.slots[i].msgbuf == Some(b) && s'.m.slots[i].timer.Some?
                 && s'.freed == s.freed + Log(c.msgbuf)
            else s'.passed == s.passed + [b] && s'.m.slots[i].msgbuf == None && s'.m.slots[i].inSend == Some(b)
                 && s'.freed == s.freed + Log(c.msgbuf)
  {
    NextIsMatched(s, i, b, now);
  }

  /** The ACK after one released by PSH, without new such data, is held. */
  lemma NoSecondRelease(s: System, s1: System, s2: System, i: nat, n: u32, b: Buf, now: int, winScale: nat, c: Buf, later: int)
    requires PshThenSend(s, s1, s2, n, b, now, winScale) && Next(s, i, b, now) && !Before(b.ack, n)
    requires c.flow == b.flow && Before(b.ack, c.ack) && later <= now + 4000
    ensures Apply(s2, Send(c, later, winScale)).passed == s2.passed
    ensures i < |Apply(s2, Send(c, later, winScale)).m.slots|
    ensures Apply(s2, Send(c, later, winScale)).m.slots[i].msgbuf == Some(c)
  {
    PshReleases(s, s1, s2, i, n, b, now, winScale);
    PshRecorded(s, s1, i, n, b, now);
    SendKeepsSlot(s1, s2, i, b, now, winScale);
    SubmissionRestartsAge(s1, s2, i, b, now, winScale, later);
    WithoutPshHeldIff(s2, i, c, later, winScale);
  }

  lemma SendKeepsSlot(s: System, s': System, i: nat, b: Buf, now: int, winScale: nat)
    requires Next(s, i, b, now) && s' == Apply(s, Send(b, now, winScale))
    ensures TableOk(s'.m) && s'.m.enable && s'.m.slots[i].busy && s'.m.slots[i].flow == b.flow
  {
    StepTableOk(s, Send(b, now, winScale));
    NextIsMatched(s, i, b, now);
  }

  /** A flow that claims a slot passes its first ACK after that too, when it is in order
      and nothing is in transmission; received data with PSH play no part in it. */
  lemma SecondAckPasses(s: Slot, b: Buf, now: int, winScale: nat, x: System, i: nat, c: Buf, later: int)
    requires Next(x, i, c, later) && x.m.slots[i] == Claimed(s, b, now, winScale) && s.inSend == None
    ensures Apply(x, Send(c, later, winScale)).passed == x.passed + [c]
  {
    NextIsMatched(x, i, c, later);
    WithoutPshHeldIff(x, i, c, later, winScale);
  }

  /** Only received data with PSH for the flow of a slot can set its flag. */
  lemma {:induction false} NoPushNoFlag(slots: seq<Slot>, ps: seq<SlotEvent>, outs: seq<seq<Buf>>, n: nat)
    requires History(slots, ps, outs) && n <= |ps| && !slots[0].pshFlag
    requires forall k :: 0 <= k < n ==> !ps[k].Push?
    ensures !slots[n].pshFlag
    decreases n
  {
    if n > 0 {
      NoPushNoFlag(slots, ps, outs, n - 1);
      assert HistoryAt(slots, ps, outs, n - 1);
    }
  }

  lemma {:induction false} FlowStays(slots: seq<Slot>, ps: seq<SlotEvent>, outs: seq<seq<Buf>>, n: nat)
    requires History(slots, ps, outs) && n <= |ps|
    ensures slots[n].flow == slots[0].flow
    decreases n
  {
    if n > 0 {
      FlowStays(slots, ps, outs, n - 1);
      assert HistoryAt(slots, ps, outs, n - 1);
    }
  }

  /** In every run, from a state whose slot has no PSH recorded, such as a claim: while the
      flow keeps the slot and no data with PSH come for it, its next ACK in order is held
      if another is in transmission or fewer than ten have come since the last one. */
  lemma HeldWithoutPsh(ss: seq<System>, es: seq<Event>, now: int, i: nat, a: nat, n: nat)
    requires Run(ss, es, now) && a + n < |es| && KeptThrough(ss, es, i, a, n) && !ss[a].m.slots[i].pshFlag
    requires forall k {:trigger es[k]} :: a <= k < a + n ==> !(es[k].Psh? && es[k].f == ss[a].m.slots[i].flow)
    requires es[a + n].Send? && Next(ss[a + n], i, es[a + n].b, es[a + n].now)
    requires ss[a + n].m.slots[i].inSend != None || ss[a + n].m.slots[i].dropCnt + 1 < 10
    ensures ss[a + n + 1].passed == ss[a + n].passed
    ensures i < |ss[a + n + 1].m.slots| && ss[a + n + 1].m.slots[i].msgbuf == Some(es[a + n].b)
  {
    FlagStaysOff(ss, es, now, i, a, n);
    WithoutPshHeldIff(ss[a + n], i, es[a + n].b, es[a + n].now, es[a + n].winScale);
  }

  lemma FlagStaysOff(ss: seq<System>, es: seq<Event>, now: int, i: nat, a: nat, n: nat)
    requires Run(ss, es, now) && a + n <= |es| && KeptThrough(ss, es, i, a, n) && !ss[a].m.slots[i].pshFlag
    requires forall k {:trigger es[k]} :: a <= k < a + n ==> !(es[k].Psh? && es[k].f == ss[a].m.slots[i].flow)
    ensures !ss[a + n].m.slots[i].pshFlag
  {
    var slots, ps, outs := SlotStates(ss, es, i, a, n), SlotEvents(ss, es, i, a, n), SlotOuts(ss, es, i, a, n);
    HistoryInRun(ss, es, now, i, a, n);
    forall k | 0 <= k < n ensures !ps[k].Push? {
      FlowStays(slots, ps, outs, k);
      NotPushed(ss[a + k], es[a + k], i);
    }
    NoPushNoFlag(slots, ps, outs, n);
  }

  lemma NotPushed(s: System, e: Event, i: nat)
    requires i < |s.m.slots| && !(e.Psh? && e.f == s.m.slots[i].flow)
    ensures !Project(s, e, i).Push?
  {
  }

  /** Reporting a buffer as on its way ends its transmission, in whichever taken slot, and
      changes nothing else. */
  lemma MoveMeaning(s: System, b: Buf, i: nat)
    requires i < |s.m.slots| && s.m.enable
    ensures var s', c := Apply(s, Move(b)), s.m.slots[i];
            && s' == s.(m := s.m.(slots := s'.m.slots)) && |s'.m.slots| == |s.m.slots|
            && s'.m.slots[i] == if c.busy && c.inSend == Some(b) then c.(inSend := None) else c
  {
  }
}
