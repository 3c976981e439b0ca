/** The TCP ACK filter (aicwf_tcp_ack.c).

    Outgoing pure ACKs of a flow are coalesced: an ACK either passes, or is held in
    the flow's slot in place of the ACK it supersedes, to be sent by a timer.  A
    buffer handed to the filter is owned by it from then on unless it passes. */
module TcpAckFilter {
  import opened Machine

  const SLOTS: nat := 32
  const MAX_DROP: nat := 10
  const OLD_TIME: nat := 4000
  const TIMER_DELAY: nat := 5
  const HALF: nat := 0x8000_0000

  datatype Flow = Flow(source: int, dest: int, saddr: int, daddr: int)

  /** A message buffer, with the flow and acknowledgment number of the ACK inside. */
  datatype Buf = Buf(id: nat, flow: Flow, ack: u32)

  /** `timer` is the expiry of the pending timer, if any.  Times are in milliseconds. */
  datatype Slot = Slot(
    busy: bool, dropCnt: int, pshFlag: bool, pshSeq: u32, winScale: nat, lastTime: int,
    timer: Option<int>, msgbuf: Option<Buf>, inSend: Option<Buf>, flow: Flow, seqno: u32)

  datatype Manager = Manager(slots: seq<Slot>, maxNum: int, freeIndex: int, lastTime: int, enable: bool)

  /** Distance from `a` forward to `b`, modulo 2^32. */
  function Forward(a: u32, b: u32): u32 { (b - a) % U32 }

  /** `U32_BEFORE`: the signed 32-bit difference `a - b` is not positive. */
  predicate Before(a: u32, b: u32) {
    var d := (a - b) % U32;
    d == 0 || d >= HALF
  }

  lemma BeforeIsForward(a: u32, b: u32)
    ensures Before(a, b) <==> Forward(a, b) <= HALF
  {
  }

  // ---------------------------------------------------------------------------
  // One slot
  // ---------------------------------------------------------------------------

  /** An ACK quits coalescing at once when it acknowledges data received with PSH. */
  predicate Quick(s: Slot, b: Buf) { s.pshFlag && !Before(b.ack, s.pshSeq) }

  predicate Passes(s: Slot, b: Buf) {
    Before(s.seqno, b.ack) && (Quick(s, b) || (s.inSend == None && s.dropCnt + 1 >= MAX_DROP))
  }

  /** `tcp_ack_handle_new`. */
  function Handle(s: Slot, b: Buf, now: int): Slot {
    if !Before(s.seqno, b.ack) then s.(lastTime := now)
    else if Passes(s, b) then
      s.(lastTime := now, msgbuf := None, pshFlag := s.pshFlag && !Quick(s, b), seqno := b.ack,
         dropCnt := 0, inSend := Some(b), timer := None)
    else
      s.(lastTime := now, msgbuf := Some(b), seqno := b.ack, dropCnt := s.dropCnt + 1,
         timer := if s.timer == None then Some(now + TIMER_DELAY) else s.timer)
  }

  /** The buffer `Handle` frees: the superseded one, or the newcomer if it is old. */
  function HandleFrees(s: Slot, b: Buf): Option<Buf> {
    if Before(s.seqno, b.ack) then s.msgbuf else Some(b)
  }

  predicate FireSends(s: Slot) { s.busy && s.msgbuf.Some? && s.inSend == None }

  /** `tcp_ack_timeout`. */
  function Fire(s: Slot): Slot {
    if FireSends(s) then s.(timer := None, msgbuf := None, dropCnt := 0, inSend := s.msgbuf)
    else s.(timer := None)
  }

  function Pushed(s: Slot, n: u32): Slot { s.(pshFlag := true, pshSeq := n) }

  function Released(s: Slot, b: Buf): Slot {
    if s.busy && s.inSend == Some(b) then s.(inSend := None) else s
  }

  function Rescaled(s: Slot, winScale: nat): Slot {
    if winScale != 0 then s.(winScale := winScale) else s
  }

  /** A slot given to a new flow; buffers left by the previous one stay. */
  function Claimed(s: Slot, b: Buf, now: int, winScale: nat): Slot {
    s.(busy := true, pshFlag := false, lastTime := now, dropCnt := MAX_DROP,
       winScale := if winScale != 0 then winScale else 1, flow := b.flow, seqno := b.ack)
  }

  // ---------------------------------------------------------------------------
  // The table
  // ---------------------------------------------------------------------------

  predicate Old(s: Slot, now: int) { s.busy && now > s.lastTime + OLD_TIME }

  function AgeSlot(m: Manager, i: nat, now: int): Manager
    requires i < |m.slots|
  {
    if Old(m.slots[i], now)
    then m.(freeIndex := i, maxNum := m.maxNum - 1, slots := m.slots[i := m.slots[i].(busy := false)])
    else m
  }

  /** Age slots `n - 1` down to 0. */
  function AgeBelow(m: Manager, n: nat, now: int): (m': Manager)
    requires n <= |m.slots|
    ensures |m'.slots| == |m.slots|
    decreases n
  {
    if n == 0 then m else AgeBelow(AgeSlot(m, n - 1, now), n - 1, now)
  }

  /** `tcp_ack_update`. */
  function Updated(m: Manager, now: int): (m': Manager)
    ensures |m'.slots| == |m.slots|
  {
    if now > m.lastTime + OLD_TIME then AgeBelow(m.(lastTime := now), |m.slots|, now) else m
  }

  predicate Owns(s: Slot, f: Flow) { s.busy && s.flow == f }

  /** Index of the first slot satisfying the test, or the number of slots. */
  function MatchFrom(slots: seq<Slot>, f: Flow, i: nat): (k: nat)
    requires i <= |slots|
    ensures i <= k <= |slots| && (k < |slots| ==> Owns(slots[k], f))
    ensures forall j :: i <= j < k ==> !Owns(slots[j], f)
    decreases |slots| - i
  {
    if i == |slots| || Owns(slots[i], f) then i else MatchFrom(slots, f, i + 1)
  }

  function FreeFrom(slots: seq<Slot>, i: nat): (k: nat)
    requires i <= |slots|
    ensures i <= k <= |slots| && (k < |slots| ==> !slots[k].busy)
    ensures forall j :: i <= j < k ==> slots[j].busy
    decreases |slots| - i
  {
    if i == |slots| || !slots[i].busy then i else FreeFrom(slots, i + 1)
  }

  /** `tcp_ack_alloc_index`: the index given out, or -1. */
  function AllocIndex(m: Manager): int {
    if m.maxNum == SLOTS then -1
    else if m.freeIndex >= 0 then m.freeIndex
    else if FreeFrom(m.slots, 0) < |m.slots| then FreeFrom(m.slots, 0) else -1
  }

  function Allocated(m: Manager): Manager {
    if AllocIndex(m) < 0 then m else m.(freeIndex := -1, maxNum := m.maxNum + 1)
  }

  /** The part of `filter_send_tcp_ack` after ageing, on an ACK. */
  function Submitted(m: Manager, b: Buf, now: int, winScale: nat): Manager {
    var i := MatchFrom(m.slots, b.flow, 0);
    if i < |m.slots| then
      var s := Rescaled(m.slots[i], winScale);
      m.(slots := m.slots[i := if m.enable then Handle(s, b, now) else s])
    else
      var k := AllocIndex(m);
      var m1 := Allocated(m);
      if 0 <= k < |m.slots| then m1.(slots := m.slots[k := Claimed(m.slots[k], b, now, winScale)]) else m1
  }

  /** Whether the filter keeps the buffer... */
  predicate Absorbs(m: Manager, b: Buf) {
    var i := MatchFrom(m.slots, b.flow, 0);
    i < |m.slots| && m.enable && !Passes(m.slots[i], b)
  }

  /** ... and the buffer it frees. */
  function SubmitFrees(m: Manager, b: Buf): Option<Buf> {
    var i := MatchFrom(m.slots, b.flow, 0);
    if i < |m.slots| && m.enable then HandleFrees(m.slots[i], b) else None
  }

  /** `filter_rx_tcp_ack` on a received segment with PSH. */
  function Received(m: Manager, f: Flow, n: u32): Manager {
    var i := MatchFrom(m.slots, f, 0);
    if m.enable && i < |m.slots| then m.(slots := m.slots[i := Pushed(m.slots[i], n)]) else m
  }

  /** `move_tcpack_msg`. */
  function Moved(m: Manager, b: Buf): Manager {
    if m.enable then m.(slots := seq(|m.slots|, i requires 0 <= i < |m.slots| => Released(m.slots[i], b))) else m
  }

  function Cleared(s: Slot): Slot { s.(timer := None, msgbuf := None) }

  /** `tcp_ack_deinit`. */
  function Deinited(m: Manager): Manager {
    m.(enable := false, slots := seq(|m.slots|, i requires 0 <= i < |m.slots| => Cleared(m.slots[i])))
  }

  function Log(o: Option<Buf>): seq<Buf> { if o == None then [] else [o.value] }

  /** The buffers held, in slot order. */
  function HeldIn(slots: seq<Slot>): seq<Buf> {
    if slots == [] then [] else HeldIn(slots[..|slots| - 1]) + Log(slots[|slots| - 1].msgbuf)
  }

  // ---------------------------------------------------------------------------
  // The slot table is consistent
  // ---------------------------------------------------------------------------

  function BusyCount(slots: seq<Slot>): (n: nat)
    ensures n <= |slots|
  {
    if slots == [] then 0
    else BusyCount(slots[..|slots| - 1]) + (if slots[|slots| - 1].busy then 1 else 0)
  }

  lemma {:induction false} BusyUpdate(slots: seq<Slot>, i: nat, s: Slot)
    requires i < |slots|
    ensures BusyCount(slots[i := s])
         == BusyCount(slots) - (if slots[i].busy then 1 else 0) + (if s.busy then 1 else 0)
    decreases |slots|
  {
    var n := |slots| - 1;
    if i < n {
      assert slots[i := s][..n] == slots[..n][i := s];
      BusyUpdate(slots[..n], i, s);
    } else {
      assert slots[i := s][..n] == slots[..n];
    }
  }

  lemma {:induction false} AllBusy(slots: seq<Slot>)
    ensures BusyCount(slots) == |slots| <==> forall i :: 0 <= i < |slots| ==> slots[i].busy
    decreases |slots|
  {
    if slots != [] {
      var n := |slots| - 1;
      AllBusy(slots[..n]);
      assert forall i :: 0 <= i < n ==> slots[..n][i] == slots[i];
    }
  }

  ghost predicate TableOk(m: Manager) {
    && |m.slots| == SLOTS
    && m.maxNum == BusyCount(m.slots)
    && -1 <= m.freeIndex < SLOTS
    && (m.freeIndex >= 0 ==> !m.slots[m.freeIndex].busy)
    && (forall i, j :: 0 <= i < j < SLOTS && m.slots[i].busy && m.slots[j].busy ==> m.slots[i].flow != m.slots[j].flow)
  }

  lemma AgeSlotOk(m: Manager, i: nat, now: int)
    requires TableOk(m) && i < SLOTS
    ensures TableOk(AgeSlot(m, i, now))
  {
    BusyUpdate(m.slots, i, m.slots[i].(busy := false));
  }

  lemma {:induction false} AgeBelowOk(m: Manager, n: nat, now: int)
    requires TableOk(m) && n <= SLOTS
    ensures TableOk(AgeBelow(m, n, now)) && AgeBelow(m, n, now).enable == m.enable
    decreases n
  {
    if n > 0 {
      AgeSlotOk(m, n - 1, now);
      AgeBelowOk(AgeSlot(m, n - 1, now), n - 1, now);
    }
  }

  lemma UpdatedOk(m: Manager, now: int)
    requires TableOk(m)
    ensures TableOk(Updated(m, now)) && Updated(m, now).enable == m.enable
  {
    if now > m.lastTime + OLD_TIME { AgeBelowOk(m.(lastTime := now), SLOTS, now); }
  }

  /** Allocation fails exactly when every slot is busy, and otherwise names one that
      is not. */
  lemma AllocIff(m: Manager)
    requires TableOk(m)
    ensures AllocIndex(m) == -1 <==> forall i :: 0 <= i < SLOTS ==> m.slots[i].busy
    ensures AllocIndex(m) != -1 ==> 0 <= AllocIndex(m) < SLOTS && !m.slots[AllocIndex(m)].busy
  {
    AllBusy(m.slots);
  }

  /** Changing a slot without touching its occupancy or flow. */
  lemma SameOccupancy(m: Manager, i: nat, s: Slot)
    requires TableOk(m) && i < SLOTS && s.busy == m.slots[i].busy && s.flow == m.slots[i].flow
    ensures TableOk(m.(slots := m.slots[i := s]))
  {
    BusyUpdate(m.slots, i, s);
  }

  lemma {:induction false} SameBusyCount(a: seq<Slot>, b: seq<Slot>)
    requires |a| == |b| && forall i :: 0 <= i < |a| ==> a[i].busy == b[i].busy
    ensures BusyCount(a) == BusyCount(b)
    decreases |a|
  {
    if a != [] { SameBusyCount(a[..|a| - 1], b[..|b| - 1]); }
  }

  lemma SubmittedOk(m: Manager, b: Buf, now: int, winScale: nat)
    requires TableOk(m)
    ensures TableOk(Submitted(m, b, now, winScale))
  {
    var i := MatchFrom(m.slots, b.flow, 0);
    if i < |m.slots| {
      SameOccupancy(m, i, Submitted(m, b, now, winScale).slots[i]);
    } else {
      AllocIff(m);
      var k := AllocIndex(m);
      if k >= 0 {
        BusyUpdate(m.slots, k, Claimed(m.slots[k], b, now, winScale));
        var m' := Submitted(m, b, now, winScale);
        forall x, y | 0 <= x < y < SLOTS && m'.slots[x].busy && m'.slots[y].busy
          ensures m'.slots[x].flow != m'.slots[y].flow
        {
          assert x != k ==> !Owns(m.slots[x], b.flow);
          assert y != k ==> !Owns(m.slots[y], b.flow);
        }
      }
    }
  }

  // ---------------------------------------------------------------------------
  // Ownership of buffers
  // ---------------------------------------------------------------------------

  /** The manager, with the buffers submitted to it, passed on to the caller, sent by
      the timer, and freed. */
  datatype System = System(m: Manager, submitted: seq<Buf>, passed: seq<Buf>, sent: seq<Buf>, freed: seq<Buf>)

  /** `SendOther` is a frame that is not a pure ACK; `Move` is the transmit path
      reporting a buffer as on its way. */
  datatype Event =
    | Send(b: Buf, now: int, winScale: nat)
    | SendOther(b: Buf, now: int)
    | Psh(f: Flow, n: u32)
    | Timer(i: nat)
    | Move(b: Buf)
    | Deinit

  predicate Enabled(s: System, e: Event) { e.Timer? ==> e.i < |s.m.slots| && s.m.slots[e.i].timer.Some? }

  function Apply(s: System, e: Event): System
    requires Enabled(s, e)
  {
    match e
    case Send(b, now, winScale) =>
      var m := Updated(s.m, now);
      System(Submitted(m, b, now, winScale), s.submitted + [b],
             s.passed + Log(if Absorbs(m, b) then None else Some(b)), s.sent, s.freed + Log(SubmitFrees(m, b)))
    case SendOther(b, now) =>
      s.(m := Updated(s.m, now), submitted := s.submitted + [b], passed := s.passed + [b])
    case Psh(f, n) => s.(m := Received(s.m, f, n))
    case Timer(i) =>
      s.(m := s.m.(slots := s.m.slots[i := Fire(s.m.slots[i])]),
         sent := s.sent + Log(if FireSends(s.m.slots[i]) then s.m.slots[i].msgbuf else None))
    case Move(b) => s.(m := Moved(s.m, b))
    case Deinit => s.(m := Deinited(s.m), freed := s.freed + HeldIn(s.m.slots))
  }

  function Occurs(s: seq<Buf>, b: Buf): nat { multiset(s)[b] }

  function One(o: Option<Buf>, x: Buf): nat { if o == Some(x) then 1 else 0 }

  /** Number of slots that hold `x`. */
  function Holders(slots: seq<Slot>, x: Buf): nat {
    if slots == [] then 0 else Holders(slots[..|slots| - 1], x) + One(slots[|slots| - 1].msgbuf, x)
  }

  /** Every submitted buffer has exactly one fate. */
  ghost predicate Accounted(s: System) {
    forall x :: AccountedFor(s, x)
  }

  ghost predicate AccountedFor(s: System, x: Buf) {
    Occurs(s.submitted, x) == Occurs(s.passed, x) + Occurs(s.sent, x) + Occurs(s.freed, x) + Holders(s.m.slots, x)
  }

  lemma OccursLog(l: seq<Buf>, o: Option<Buf>, x: Buf)
    ensures Occurs(l + Log(o), x) == Occurs(l, x) + One(o, x)
  {
  }

  lemma {:induction false} HoldersUpdate(slots: seq<Slot>, i: nat, s: Slot, x: Buf)
    requires i < |slots|
    ensures Holders(slots[i := s], x) == Holders(slots, x) - One(slots[i].msgbuf, x) + One(s.msgbuf, x)
    decreases |slots|
  {
    var n := |slots| - 1;
    if i < n {
      assert slots[i := s][..n] == slots[..n][i := s];
      HoldersUpdate(slots[..n], i, s, x);
    } else {
      assert slots[i := s][..n] == slots[..n];
    }
  }

  lemma {:induction false} HoldersOccur(slots: seq<Slot>, x: Buf)
    ensures Occurs(HeldIn(slots), x) == Holders(slots, x)
    decreases |slots|
  {
    if slots != [] {
      HoldersOccur(slots[..|slots| - 1], x);
      OccursLog(HeldIn(slots[..|slots| - 1]), slots[|slots| - 1].msgbuf, x);
    }
  }

  lemma {:induction false} SameHeld(a: seq<Slot>, b: seq<Slot>)
    requires |a| == |b| && forall i :: 0 <= i < |a| ==> a[i].msgbuf == b[i].msgbuf
    ensures HeldIn(a) == HeldIn(b)
    decreases |a|
  {
    if a != [] { SameHeld(a[..|a| - 1], b[..|b| - 1]); }
  }

  lemma {:induction false} NoneHeld(a: seq<Slot>)
    requires forall i :: 0 <= i < |a| ==> a[i].msgbuf == None
    ensures HeldIn(a) == []
    decreases |a|
  {
    if a != [] { NoneHeld(a[..|a| - 1]); }
  }

  lemma {:induction false} AgeBelowHeld(m: Manager, n: nat, now: int)
    requires n <= |m.slots|
    ensures forall i :: 0 <= i < |m.slots| ==> AgeBelow(m, n, now).slots[i].msgbuf == m.slots[i].msgbuf
    decreases n
  {
    if n > 0 { AgeBelowHeld(AgeSlot(m, n - 1, now), n - 1, now); }
  }

  lemma UpdatedHeld(m: Manager, now: int)
    ensures HeldIn(Updated(m, now).slots) == HeldIn(m.slots)
  {
    if now > m.lastTime + OLD_TIME {
      AgeBelowHeld(m.(lastTime := now), |m.slots|, now);
      SameHeld(Updated(m, now).slots, m.slots);
    }
  }

  /** What one slot does with an ACK conserves buffers. */
  lemma HandleConserves(s: Slot, b: Buf, now: int, x: Buf)
    ensures One(s.msgbuf, x) + One(Some(b), x)
         == One(Handle(s, b, now).msgbuf, x) + One(HandleFrees(s, b), x)
            + One(if Passes(s, b) then Some(b) else None, x)
  {
  }

  lemma SubmitConserves(m: Manager, b: Buf, now: int, winScale: nat, x: Buf)
    ensures Holders(m.slots, x) + One(Some(b), x)
         == Holders(Submitted(m, b, now, winScale).slots, x) + One(SubmitFrees(m, b), x)
            + One(if Absorbs(m, b) then None else Some(b), x)
  {
    var i, m' := MatchFrom(m.slots, b.flow, 0), Submitted(m, b, now, winScale);
    if i < |m.slots| {
      HoldersUpdate(m.slots, i, m'.slots[i], x);
      HandleConserves(Rescaled(m.slots[i], winScale), b, now, x);
    } else if 0 <= AllocIndex(m) < |m.slots| {
      HoldersUpdate(m.slots, AllocIndex(m), m'.slots[AllocIndex(m)], x);
    }
  }

  lemma SendAccounts(s: System, b: Buf, now: int, winScale: nat, x: Buf)
    requires AccountedFor(s, x)
    ensures AccountedFor(Apply(s, Send(b, now, winScale)), x)
  {
    var m := Updated(s.m, now);
    UpdatedHeld(s.m, now);
    HoldersOccur(m.slots, x);
    HoldersOccur(s.m.slots, x);
    SubmitConserves(m, b, now, winScale, x);
    OccursLog(s.submitted, Some(b), x);
    OccursLog(s.passed, if Absorbs(m, b) then None else Some(b), x);
    OccursLog(s.freed, SubmitFrees(m, b), x);
  }

  lemma OtherAccounts(s: System, b: Buf, now: int, x: Buf)
    requires AccountedFor(s, x)
    ensures AccountedFor(Apply(s, SendOther(b, now)), x)
  {
    UpdatedHeld(s.m, now);
    HoldersOccur(s.m.slots, x);
    HoldersOccur(Updated(s.m, now).slots, x);
    OccursLog(s.submitted, Some(b), x);
    OccursLog(s.passed, Some(b), x);
  }

  lemma TimerAccounts(s: System, i: nat, x: Buf)
    requires AccountedFor(s, x) && Enabled(s, Timer(i))
    ensures AccountedFor(Apply(s, Timer(i)), x)
  {
    var slot := s.m.slots[i];
    HoldersUpdate(s.m.slots, i, Fire(slot), x);
    OccursLog(s.sent, if FireSends(slot) then slot.msgbuf else None, x);
  }

  lemma OccursAppend(l: seq<Buf>, r: seq<Buf>, x: Buf)
    ensures Occurs(l + r, x) == Occurs(l, x) + Occurs(r, x)
  {
  }

  lemma {:induction false} NoHolders(slots: seq<Slot>, x: Buf)
    requires forall i :: 0 <= i < |slots| ==> slots[i].msgbuf == None
    ensures Holders(slots, x) == 0
    decreases |slots|
  {
    if slots != [] { NoHolders(slots[..|slots| - 1], x); }
  }

  lemma DeinitAccounts(s: System, x: Buf)
    requires AccountedFor(s, x)
    ensures AccountedFor(Apply(s, Deinit), x)
  {
    var s', held := Apply(s, Deinit), HeldIn(s.m.slots);
    assert s'.freed == s.freed + held;
    OccursAppend(s.freed, held, x);
    HoldersOccur(s.m.slots, x);
    NoHolders(s'.m.slots, x);
  }

  lemma SameHolders(a: seq<Slot>, b: seq<Slot>, x: Buf)
    requires |a| == |b| && forall i :: 0 <= i < |a| ==> a[i].msgbuf == b[i].msgbuf
    ensures Holders(a, x) == Holders(b, x)
  {
    SameHeld(a, b);
    HoldersOccur(a, x);
    HoldersOccur(b, x);
  }

  lemma StepAccounts(s: System, e: Event, x: Buf)
    requires Enabled(s, e) && AccountedFor(s, x)
    ensures AccountedFor(Apply(s, e), x)
  {
    match e
    case Send(b, now, winScale) => SendAccounts(s, b, now, winScale, x);
    case SendOther(b, now) => OtherAccounts(s, b, now, x);
    case Psh(f, n) => SameHolders(Received(s.m, f, n).slots, s.m.slots, x);
    case Timer(i) => TimerAccounts(s, i, x);
    case Move(b) => SameHolders(Moved(s.m, b).slots, s.m.slots, x);
    case Deinit => DeinitAccounts(s, x);
  }

  /** A disabled filter takes nothing into a slot. */
  lemma StepStaysEmpty(s: System, e: Event)
    requires Enabled(s, e) && !s.m.enable && HeldIn(s.m.slots) == []
    ensures !Apply(s, e).m.enable && HeldIn(Apply(s, e).m.slots) == []
  {
    var s' := Apply(s, e);
    match e
    case Send(b, now, winScale) =>
      UpdatedHeld(s.m, now);
      UpdatedEnable(s.m, now);
      DisabledHeld(Updated(s.m, now), b, now, winScale);
    case SendOther(b, now) =>
      UpdatedHeld(s.m, now);
      UpdatedEnable(s.m, now);
    case Timer(i) =>
      NothingAt(s.m.slots, i);
      SameHeld(s'.m.slots, s.m.slots);
    case Deinit => NoneHeld(s'.m.slots);
    case _ =>
  }

  lemma DisabledHeld(m: Manager, b: Buf, now: int, winScale: nat)
    requires !m.enable
    ensures !Submitted(m, b, now, winScale).enable
    ensures HeldIn(Submitted(m, b, now, winScale).slots) == HeldIn(m.slots)
  {
    SameHeld(Submitted(m, b, now, winScale).slots, m.slots);
  }

  lemma {:induction false} NothingAt(slots: seq<Slot>, i: nat)
    requires HeldIn(slots) == [] && i < |slots|
    ensures slots[i].msgbuf == None
    decreases |slots|
  {
    if i < |slots| - 1 { NothingAt(slots[..|slots| - 1], i); }
  }

  lemma {:induction false} AgeBelowEnable(m: Manager, n: nat, now: int)
    requires n <= |m.slots|
    ensures AgeBelow(m, n, now).enable == m.enable
    decreases n
  {
    if n > 0 { AgeBelowEnable(AgeSlot(m, n - 1, now), n - 1, now); }
  }

  lemma UpdatedEnable(m: Manager, now: int)
    ensures Updated(m, now).enable == m.enable
  {
    if now > m.lastTime + OLD_TIME { AgeBelowEnable(m.(lastTime := now), |m.slots|, now); }
  }

  lemma StepTableOk(s: System, e: Event)
    requires Enabled(s, e) && TableOk(s.m)
    ensures TableOk(Apply(s, e).m)
  {
    match e
    case Send(b, now, winScale) =>
      UpdatedOk(s.m, now);
      SubmittedOk(Updated(s.m, now), b, now, winScale);
    case SendOther(b, now) => UpdatedOk(s.m, now);
    case Psh(f, n) =>
      var i := MatchFrom(s.m.slots, f, 0);
      if i < SLOTS { SameOccupancy(s.m, i, Pushed(s.m.slots[i], n)); }
    case Timer(i) => SameOccupancy(s.m, i, Fire(s.m.slots[i]));
    case Move(b) => SameBusyCount(s.m.slots, Apply(s, e).m.slots);
    case Deinit => SameBusyCount(s.m.slots, Apply(s, e).m.slots);
  }

  function Initial(now: int): System {
    var s := Slot(false, 0, false, 0, 0, now, None, None, None, Flow(0, 0, 0, 0), 0);
    System(Manager(seq(SLOTS, _ => s), 0, 0, now, true), [], [], [], [])
  }

  /** `ss` are the states of a run of `es` from the initial state. */
  ghost predicate Run(ss: seq<System>, es: seq<Event>, now: int) {
    && |ss| == |es| + 1 && ss[0] == Initial(now)
    && forall i {:trigger es[i]} :: 0 <= i < |es| ==> Enabled(ss[i], es[i]) && ss[i + 1] == Apply(ss[i], es[i])
  }

  ghost predicate Inv(s: System) {
    TableOk(s.m) && Accounted(s) && (!s.m.enable ==> HeldIn(s.m.slots) == [])
  }

  lemma InitialInv(now: int)
    ensures Inv(Initial(now))
  {
    var s := Initial(now);
    NoneHeld(s.m.slots);
    NoneBusy(s.m.slots);
    forall x ensures AccountedFor(s, x) {
      HoldersOccur(s.m.slots, x);
    }
  }

  lemma {:induction false} NoneBusy(a: seq<Slot>)
    requires forall i :: 0 <= i < |a| ==> !a[i].busy
    ensures BusyCount(a) == 0
    decreases |a|
  {
    if a != [] { NoneBusy(a[..|a| - 1]); }
  }

  lemma StepInv(s: System, e: Event)
    requires Inv(s) && Enabled(s, e)
    ensures Inv(Apply(s, e))
  {
    StepTableOk(s, e);
    forall x ensures AccountedFor(Apply(s, e), x) {
      StepAccounts(s, e, x);
    }
    if !s.m.enable {
      StepStaysEmpty(s, e);
    } else {
      match e
      case Send(b, now, _) => UpdatedEnable(s.m, now);
      case SendOther(b, now) => UpdatedEnable(s.m, now);
      case Deinit => NoneHeld(Apply(s, e).m.slots);
      case _ =>
    }
  }

  /** In every reachable state the slot table is consistent, every submitted buffer
      is passed, held, sent or freed exactly once, and a filter that was shut down
      holds nothing. */
  lemma {:induction false} RunInv(ss: seq<System>, es: seq<Event>, now: int, n: nat)
    requires Run(ss, es, now) && n <= |es|
    ensures Inv(ss[n])
    decreases n
  {
    if n == 0 {
      InitialInv(now);
    } else {
      RunInv(ss, es, now, n - 1);
      StepInv(ss[n - 1], es[n - 1]);
    }
  }

  lemma StepLogs(s: System, e: Event, b: Buf)
    requires Enabled(s, e)
    ensures Occurs(s.freed, b) <= Occurs(Apply(s, e).freed, b)
  {
  }

  lemma {:induction false} FreedGrows(ss: seq<System>, es: seq<Event>, now: int, i: nat, j: nat, b: Buf)
    requires Run(ss, es, now) && i <= j <= |es|
    ensures Occurs(ss[i].freed, b) <= Occurs(ss[j].freed, b)
    decreases j
  {
    if i < j {
      FreedGrows(ss, es, now, i, j - 1, b);
      StepLogs(ss[j - 1], es[j - 1], b);
    }
  }

  /** A buffer submitted once and freed at some point is at no later point sent,
      passed, held, or freed again. */
  lemma FreedIsFinal(ss: seq<System>, es: seq<Event>, now: int, i: nat, j: nat, b: Buf)
    requires Run(ss, es, now) && i <= j <= |es|
    requires Occurs(ss[j].submitted, b) == 1 && Occurs(ss[i].freed, b) > 0
    ensures Occurs(ss[j].freed, b) == 1
    ensures Occurs(ss[j].sent, b) == 0 && Occurs(ss[j].passed, b) == 0 && Holders(ss[j].m.slots, b) == 0
  {
    RunInv(ss, es, now, j);
    assert AccountedFor(ss[j], b);
    FreedGrows(ss, es, now, i, j, b);
  }

  // ---------------------------------------------------------------------------
  // The object
  // ---------------------------------------------------------------------------

  class AckFilter {
    const slots: array<Slot>
    var maxNum: int
    var freeIndex: int
    var lastTime: int
    var enable: bool

    ghost function View(): Manager
      reads this, slots
    {
      Manager(slots[..], maxNum, freeIndex, lastTime, enable)
    }

    constructor (now: int)
      ensures View() == Initial(now).m && fresh(slots)
    {
      slots := new Slot[SLOTS](_ => Slot(false, 0, false, 0, 0, now, None, None, None, Flow(0, 0, 0, 0), 0));
      maxNum, freeIndex, lastTime, enable := 0, 0, now, true;
      new;
      assert slots[..] == Initial(now).m.slots;
    }

    method Update(now: int)
      modifies this`maxNum, this`freeIndex, this`lastTime, slots
      ensures View() == Updated(old(View()), now)
    {
      if now > lastTime + OLD_TIME {
        lastTime := now;
        ghost var m := View();
        var i := slots.Length;
        while i > 0
          invariant 0 <= i <= slots.Length
          invariant AgeBelow(View(), i, now) == AgeBelow(m, slots.Length, now)
        {
          i := i - 1;
          ghost var before := View();
          if slots[i].busy && now > slots[i].lastTime + OLD_TIME {
            freeIndex := i;
            maxNum := maxNum - 1;
            slots[i] := slots[i].(busy := false);
          }
          assert View() == AgeSlot(before, i, now);
        }
      }
    }

    /** `tcp_ack_match`; the number of slots stands for -1. */
    method Match(f: Flow) returns (i: nat)
      ensures i == MatchFrom(slots[..], f, 0)
    {
      i := 0;
      while i < slots.Length && !(slots[i].busy && slots[i].flow == f)
        invariant i <= slots.Length && MatchFrom(slots[..], f, 0) == MatchFrom(slots[..], f, i)
      {
        i := i + 1;
      }
    }

    method TakeIndex() returns (k: int)
      modifies this`maxNum, this`freeIndex
      ensures k == AllocIndex(old(View())) && View() == Allocated(old(View()))
    {
      if maxNum == SLOTS {
        return -1;
      }
      if freeIndex >= 0 {
        k := freeIndex;
        freeIndex := -1;
        maxNum := maxNum + 1;
        return;
      }
      var i := 0;
      while i < slots.Length && slots[i].busy
        invariant i <= slots.Length && FreeFrom(slots[..], 0) == FreeFrom(slots[..], i)
      {
        i := i + 1;
      }
      if i < slots.Length {
        freeIndex := -1;
        maxNum := maxNum + 1;
        return i;
      }
      return -1;
    }

    method HandleNew(i: nat, b: Buf, now: int) returns (absorbed: bool, drop: Option<Buf>)
      requires i < slots.Length
      modifies slots
      ensures slots[..] == old(slots[..])[i := Handle(old(slots[i]), b, now)]
      ensures absorbed <==> !Passes(old(slots[i]), b)
      ensures drop == HandleFrees(old(slots[i]), b)
    {
      var s := slots[i].(lastTime := now);
      drop, absorbed := None, false;
      if Before(s.seqno, b.ack) {
        var quick := false;
        if s.msgbuf.Some? {
          drop := s.msgbuf;
          s := s.(msgbuf := None);
        }
        if s.pshFlag && !Before(b.ack, s.pshSeq) {
          s := s.(pshFlag := false);
          quick := true;
        } else {
          s := s.(dropCnt := s.dropCnt + 1);
        }
        s := s.(seqno := b.ack);
        if quick || (s.inSend == None && s.dropCnt >= MAX_DROP) {
          s := s.(dropCnt := 0, inSend := Some(b), timer := None);
        } else {
          absorbed := true;
          s := s.(msgbuf := Some(b));
          if s.timer == None {
            s := s.(timer := Some(now + TIMER_DELAY));
          }
        }
      } else {
        drop := Some(b);
        absorbed := true;
      }
      slots[i] := s;
    }

    /** `filter_send_tcp_ack` on an ACK. */
    method Send(b: Buf, now: int, winScale: nat) returns (absorbed: bool, drop: Option<Buf>)
      modifies this, slots
      ensures View() == Submitted(Updated(old(View()), now), b, now, winScale)
      ensures absorbed == Absorbs(Updated(old(View()), now), b)
      ensures drop == SubmitFrees(Updated(old(View()), now), b)
    {
      Update(now);
      absorbed, drop := false, None;
      ghost var m := View();
      var i := Match(b.flow);
      if i < slots.Length {
        if winScale != 0 && slots[i].winScale != winScale {
          slots[i] := slots[i].(winScale := winScale);
        }
        assert slots[i] == Rescaled(m.slots[i], winScale) && slots[..] == m.slots[i := slots[i]];
        if enable {
          absorbed, drop := HandleNew(i, b, now);
        }
        assert View().slots == Submitted(m, b, now, winScale).slots;
        return;
      }
      var k := TakeIndex();
      if 0 <= k < slots.Length {
        slots[k] := Claimed(slots[k], b, now, winScale);
        assert View().slots == Submitted(m, b, now, winScale).slots;
      }
    }

    /** `filter_rx_tcp_ack` on a received segment with PSH. */
    method Receive(f: Flow, n: u32)
      modifies slots
      ensures View() == Received(old(View()), f, n)
    {
      if enable {
        var i := Match(f);
        if i < slots.Length {
          slots[i] := slots[i].(pshFlag := true, pshSeq := n);
        }
      }
    }

    method Timeout(i: nat) returns (sent: Option<Buf>)
      requires i < slots.Length
      modifies slots
      ensures slots[..] == old(slots[..])[i := Fire(old(slots[i]))]
      ensures sent == if FireSends(old(slots[i])) then old(slots[i]).msgbuf else None
    {
      var s := slots[i].(timer := None);
      sent := None;
      if s.busy && s.msgbuf.Some? && s.inSend == None {
        sent := s.msgbuf;
        s := s.(msgbuf := None, dropCnt := 0, inSend := sent);
      }
      slots[i] := s;
    }

    method MoveMsg(b: Buf)
      modifies slots
      ensures View() == Moved(old(View()), b)
    {
      if enable {
        for i := 0 to slots.Length
          invariant forall k :: 0 <= k < slots.Length ==>
                      slots[k] == if k < i then Released(old(slots[k]), b) else old(slots[k])
        {
          if slots[i].busy && slots[i].inSend == Some(b) {
            slots[i] := slots[i].(inSend := None);
          }
        }
        assert slots[..] == Moved(old(View()), b).slots;
      }
    }

    method Deinit() returns (dropped: seq<Buf>)
      modifies this`enable, slots
      ensures View() == Deinited(old(View())) && dropped == HeldIn(old(slots[..]))
    {
      enable := false;
      dropped := [];
      for i := 0 to slots.Length
        invariant forall k :: 0 <= k < slots.Length ==>
                    slots[k] == if k < i then Cleared(old(slots[k])) else old(slots[k])
        invariant !enable && dropped == HeldIn(old(slots[..])[..i])
      {
        assert old(slots[..])[..i + 1][..i] == old(slots[..])[..i];
        dropped := dropped + Log(slots[i].msgbuf);
        slots[i] := slots[i].(timer := None, msgbuf := None);
      }
      assert old(slots[..])[..slots.Length] == old(slots[..]);
      assert slots[..] == Deinited(old(View())).slots;
    }
  }
}
