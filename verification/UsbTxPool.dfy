/** USB transmit buffers (aicwf_usb.c, without transmit aggregation).

    Fifty buffers move between a free list, callers that fill them, a post list and
    the USB core.  A low watermark stops the network queues, a high one wakes them,
    and each station has a counter of its outstanding frames.  The locks protect
    single list operations and the watermark checks only, so the steps below
    interleave freely. */
module UsbTxPool {
  import opened Machine

  const URBS: nat := 50
  const LOW_WATER: nat := 12
  const HIGH_WATER: nat := 36
  const STATIONS: nat := 32
  const STA_HIGH_WATER: nat := 64
  const STA_LOW_WATER: nat := 16

  /** Who holds a buffer.  `Taken` has left the free list and is not yet counted
      against its station; `Releasing` is no longer counted and not yet back. */
  datatype Phase = Free | Taken | Filling | Posted | Submitted | Releasing

  /** `sta` is the station the frame is counted against, `None` for management
      frames and unknown stations. */
  datatype Buf = Buf(phase: Phase, sta: Option<nat>)
  {
    predicate Counted(s: nat) {
      sta == Some(s) && (phase.Filling? || phase.Posted? || phase.Submitted?)
    }
  }

  datatype Pool = Pool(
    freeList: seq<nat>, freeCount: int, postList: seq<nat>, postCount: int,
    bufs: seq<Buf>, pending: seq<int>, flowctrl: seq<bool>, tbusy: bool)

  // ---------------------------------------------------------------------------
  // Steps on the pool
  // ---------------------------------------------------------------------------

  function SetPhase(p: Pool, b: nat, ph: Phase): Pool
    requires b < |p.bufs|
  {
    p.(bufs := p.bufs[b := p.bufs[b].(phase := ph)])
  }

  function TakeFree(p: Pool): Pool
    requires p.freeList != [] && p.freeList[0] < |p.bufs|
  {
    SetPhase(p, p.freeList[0], Taken).(freeList := p.freeList[1..], freeCount := p.freeCount - 1)
  }

  predicate ValidSta(sta: Option<nat>, p: Pool) {
    sta.Some? ==> sta.value < |p.pending| && sta.value < |p.flowctrl|
  }

  /** `usb_tx_flow_ctrl`. */
  function CountFor(p: Pool, b: nat, sta: Option<nat>, ap: bool): Pool
    requires b < |p.bufs| && ValidSta(sta, p)
  {
    var p1 := p.(bufs := p.bufs[b := Buf(Filling, sta)]);
    if sta == None then p1
    else
      var s := sta.value;
      var n := p.pending[s] + 1;
      p1.(pending := p.pending[s := n],
          flowctrl := p.flowctrl[s := p.flowctrl[s] || (ap && n >= STA_HIGH_WATER)])
  }

  function Post(p: Pool, b: nat): Pool
    requires b < |p.bufs|
  {
    SetPhase(p, b, Posted).(postList := p.postList + [b], postCount := p.postCount + 1)
  }

  /** Lines 1883-1890. */
  function StopCheck(p: Pool, low: bool): Pool { p.(tbusy := p.tbusy || low) }

  function Submit(p: Pool): Pool
    requires p.postList != [] && p.postList[0] < |p.bufs|
  {
    SetPhase(p, p.postList[0], Submitted).(postList := p.postList[1..], postCount := p.postCount - 1)
  }

  /** `usb_txc_sta_flowctrl`. */
  function Uncount(p: Pool, b: nat, ap: bool): Pool
    requires b < |p.bufs| && ValidSta(p.bufs[b].sta, p)
  {
    var sta := p.bufs[b].sta;
    var p1 := SetPhase(p, b, Releasing);
    if sta == None then p1
    else
      var s := sta.value;
      var n := p.pending[s] - 1;
      p1.(pending := p.pending[s := n],
          flowctrl := p.flowctrl[s := p.flowctrl[s] && !(ap && n < STA_LOW_WATER)])
  }

  function PutFree(p: Pool, b: nat): Pool
    requires b < |p.bufs|
  {
    SetPhase(p, b, Free).(freeList := p.freeList + [b], freeCount := p.freeCount + 1)
  }

  /** Lines 249-256. */
  function WakeCheck(p: Pool, high: bool): Pool { p.(tbusy := p.tbusy && !high) }

  /** A submission that the USB core refuses: lines 1211-1216, with no wake check. */
  function FailSubmit(p: Pool, ap: bool): Pool
    requires p.postList != [] && p.postList[0] < |p.bufs| && ValidSta(p.bufs[p.postList[0]].sta, p)
  {
    var b := p.postList[0];
    PutFree(Uncount(Submit(p), b, ap), b)
  }

  // ---------------------------------------------------------------------------
  // Interleaved execution
  // ---------------------------------------------------------------------------

  /** Holder of the flow lock, with the comparison it made on entry. */
  datatype Lock = Unlocked | Stopping(low: bool) | Waking(high: bool)

  /** `stops`: senders that have yet to make their low-water check;
      `checks`: completions that returned their buffer and have yet to make theirs. */
  datatype System = System(p: Pool, lock: Lock, stops: nat, checks: nat)

  datatype Event =
    | TxGet
    | TxCount(b: nat, sta: Option<nat>, ap: bool)
    | TxPost(b: nat)
    | StopAcquire
    | StopRelease
    | SubmitOk
    | SubmitFail(ap: bool)
    | DoneUncount(b: nat, ap: bool)
    | DoneFree(b: nat)
    | WakeAcquire
    | WakeRelease

  function InitialPool(): Pool {
    Pool(seq(URBS, i requires 0 <= i => i), URBS, [], 0, seq(URBS, _ => Buf(Free, None)),
         seq(STATIONS, _ => 0), seq(STATIONS, _ => false), false)
  }

  function Initial(): System { System(InitialPool(), Unlocked, 0, 0) }

  predicate InPhase(s: System, b: nat, ph: Phase) { b < |s.p.bufs| && s.p.bufs[b].phase == ph }

  predicate Enabled(s: System, e: Event) {
    match e
    case TxGet => s.p.freeList != [] ==> s.p.freeList[0] < |s.p.bufs|
    case TxCount(b, sta, _) => InPhase(s, b, Taken) && ValidSta(sta, s.p)
    case TxPost(b) => InPhase(s, b, Filling)
    case StopAcquire => s.stops > 0 && s.lock.Unlocked?
    case StopRelease => s.lock.Stopping?
    case SubmitOk => s.p.postList != [] && s.p.postList[0] < |s.p.bufs|
    case SubmitFail(_) => s.p.postList != [] && s.p.postList[0] < |s.p.bufs| && ValidSta(s.p.bufs[s.p.postList[0]].sta, s.p)
    case DoneUncount(b, _) => InPhase(s, b, Submitted) && ValidSta(s.p.bufs[b].sta, s.p)
    case DoneFree(b) => InPhase(s, b, Releasing)
    case WakeAcquire => s.checks > 0 && s.lock.Unlocked?
    case WakeRelease => s.lock.Waking?
  }

  function Apply(s: System, e: Event): System
    requires Enabled(s, e)
  {
    match e
    case TxGet => if s.p.freeList == [] then s.(stops := s.stops + 1) else s.(p := TakeFree(s.p))
    case TxCount(b, sta, ap) => s.(p := CountFor(s.p, b, sta, ap))
    case TxPost(b) => s.(p := Post(s.p, b), stops := s.stops + 1)
    case StopAcquire => s.(lock := Stopping(s.p.freeCount < LOW_WATER), stops := s.stops - 1)
    case StopRelease => s.(p := StopCheck(s.p, s.lock.low), lock := Unlocked)
    case SubmitOk => s.(p := Submit(s.p))
    case SubmitFail(ap) => s.(p := FailSubmit(s.p, ap))
    case DoneUncount(b, ap) => s.(p := Uncount(s.p, b, ap))
    case DoneFree(b) => s.(p := PutFree(s.p, b), checks := s.checks + 1)
    case WakeAcquire => s.(lock := Waking(s.p.freeCount > HIGH_WATER), checks := s.checks - 1)
    case WakeRelease => s.(p := WakeCheck(s.p, s.lock.high), lock := Unlocked)
  }

  ghost predicate Run(s: System, es: seq<Event>)
    decreases |es|
  {
    es == [] || (Enabled(s, es[0]) && Run(Apply(s, es[0]), es[1..]))
  }

  ghost function Final(s: System, es: seq<Event>): System
    requires Run(s, es)
    decreases |es|
  {
    if es == [] then s else Final(Apply(s, es[0]), es[1..])
  }

  // ---------------------------------------------------------------------------
  // Every buffer has one holder
  // ---------------------------------------------------------------------------

  /** `list` holds exactly the buffers in phase `ph`, each once. */
  ghost predicate Lists(list: seq<nat>, bufs: seq<Buf>, ph: Phase) {
    && (forall i, j :: 0 <= i < j < |list| ==> list[i] != list[j])
    && (forall i :: 0 <= i < |list| ==> list[i] < |bufs| && bufs[list[i]].phase == ph)
    && (forall b :: 0 <= b < |bufs| && bufs[b].phase == ph ==> b in list)
  }

  ghost predicate Conserved(p: Pool) {
    && |p.bufs| == URBS
    && p.freeCount == |p.freeList| && p.postCount == |p.postList|
    && Lists(p.freeList, p.bufs, Free)
    && Lists(p.postList, p.bufs, Posted)
  }

  lemma ListsPop(list: seq<nat>, bufs: seq<Buf>, ph: Phase, buf: Buf)
    requires Lists(list, bufs, ph) && list != [] && buf.phase != ph
    ensures Lists(list[1..], bufs[list[0] := buf], ph)
  {
  }

  lemma ListsPush(list: seq<nat>, bufs: seq<Buf>, ph: Phase, b: nat, buf: Buf)
    requires Lists(list, bufs, ph) && b < |bufs| && bufs[b].phase != ph && buf.phase == ph
    ensures Lists(list + [b], bufs[b := buf], ph)
  {
    var list', bufs' := list + [b], bufs[b := buf];
    forall x | 0 <= x < |bufs'| && bufs'[x].phase == ph ensures x in list' {
      if x == b { assert list'[|list|] == b; } else { assert x in list; }
    }
  }

  lemma ListsOther(list: seq<nat>, bufs: seq<Buf>, ph: Phase, b: nat, buf: Buf)
    requires Lists(list, bufs, ph) && b < |bufs| && bufs[b].phase != ph && buf.phase != ph
    ensures Lists(list, bufs[b := buf], ph)
  {
  }

  lemma StepConserves(s: System, e: Event)
    requires Conserved(s.p) && Enabled(s, e)
    ensures Conserved(Apply(s, e).p)
  {
    var p, p' := s.p, Apply(s, e).p;
    match e
    case TxGet =>
      if p.freeList != [] {
        var b := p.freeList[0];
        ListsPop(p.freeList, p.bufs, Free, p'.bufs[b]);
        ListsOther(p.postList, p.bufs, Posted, b, p'.bufs[b]);
      }
    case TxCount(b, _, _) =>
      ListsOther(p.freeList, p.bufs, Free, b, p'.bufs[b]);
      ListsOther(p.postList, p.bufs, Posted, b, p'.bufs[b]);
    case TxPost(b) =>
      ListsOther(p.freeList, p.bufs, Free, b, p'.bufs[b]);
      ListsPush(p.postList, p.bufs, Posted, b, p'.bufs[b]);
    case SubmitOk => SubmitConserves(p);
    case SubmitFail(ap) =>
      var b := p.postList[0];
      SubmitConserves(p);
      var p1 := Uncount(Submit(p), b, ap);
      ListsOther(p.freeList, Submit(p).bufs, Free, b, p1.bufs[b]);
      ListsOther(p.postList[1..], Submit(p).bufs, Posted, b, p1.bufs[b]);
      FreeConserves(p1, b);
    case DoneUncount(b, _) =>
      ListsOther(p.freeList, p.bufs, Free, b, p'.bufs[b]);
      ListsOther(p.postList, p.bufs, Posted, b, p'.bufs[b]);
    case DoneFree(b) => FreeConserves(p, b);
    case _ =>
  }

  lemma SubmitConserves(p: Pool)
    requires Conserved(p) && p.postList != []
    ensures Conserved(Submit(p))
  {
    var b := p.postList[0];
    ListsOther(p.freeList, p.bufs, Free, b, Submit(p).bufs[b]);
    ListsPop(p.postList, p.bufs, Posted, Submit(p).bufs[b]);
  }

  lemma FreeConserves(p: Pool, b: nat)
    requires Conserved(p) && b < URBS && p.bufs[b].phase.Releasing?
    ensures Conserved(PutFree(p, b))
  {
    ListsPush(p.freeList, p.bufs, Free, b, PutFree(p, b).bufs[b]);
    ListsOther(p.postList, p.bufs, Posted, b, PutFree(p, b).bufs[b]);
  }

  // ---------------------------------------------------------------------------
  // Per-station accounting
  // ---------------------------------------------------------------------------

  function Counted(bufs: seq<Buf>, s: nat): (n: nat)
    ensures n <= |bufs|
  {
    if bufs == [] then 0
    else Counted(bufs[..|bufs| - 1], s) + (if bufs[|bufs| - 1].Counted(s) then 1 else 0)
  }

  lemma {:induction false} CountedUpdate(bufs: seq<Buf>, b: nat, buf: Buf, s: nat)
    requires b < |bufs|
    ensures Counted(bufs[b := buf], s)
         == Counted(bufs, s) - (if bufs[b].Counted(s) then 1 else 0) + (if buf.Counted(s) then 1 else 0)
    decreases |bufs|
  {
    var n := |bufs| - 1;
    if b < n {
      assert bufs[b := buf][..n] == bufs[..n][b := buf];
      CountedUpdate(bufs[..n], b, buf, s);
    } else {
      assert bufs[b := buf][..n] == bufs[..n];
    }
  }

  /** Each station's counter is the number of its counted buffers, and the stop
      flag has never been raised. */
  ghost predicate Accounted(p: Pool) {
    && |p.pending| == |p.flowctrl| == STATIONS
    && (forall s :: 0 <= s < STATIONS ==> AccountedFor(p, s))
  }

  ghost predicate AccountedFor(p: Pool, s: nat)
    requires s < |p.pending| && s < |p.flowctrl|
  {
    p.pending[s] == Counted(p.bufs, s) && !p.flowctrl[s]
  }

  lemma CountAccounts(p: Pool, b: nat, sta: Option<nat>, ap: bool)
    requires Conserved(p) && Accounted(p) && b < URBS && p.bufs[b].phase.Taken? && ValidSta(sta, p)
    ensures Accounted(CountFor(p, b, sta, ap))
  {
    var p' := CountFor(p, b, sta, ap);
    forall s | 0 <= s < STATIONS ensures AccountedFor(p', s) {
      assert AccountedFor(p, s);
      CountedUpdate(p.bufs, b, p'.bufs[b], s);
    }
  }

  lemma UncountAccounts(p: Pool, b: nat, ap: bool)
    requires Conserved(p) && Accounted(p) && b < URBS && p.bufs[b].phase.Submitted? && ValidSta(p.bufs[b].sta, p)
    ensures Accounted(Uncount(p, b, ap))
  {
    var p' := Uncount(p, b, ap);
    forall s | 0 <= s < STATIONS ensures AccountedFor(p', s) {
      assert AccountedFor(p, s);
      CountedUpdate(p.bufs, b, p'.bufs[b], s);
    }
  }

  /** Steps that move a buffer without entering or leaving the counted phases. */
  lemma MoveAccounts(p: Pool, p': Pool, b: nat)
    requires Accounted(p) && b < |p.bufs| && |p'.bufs| == |p.bufs| && p'.bufs == p.bufs[b := p'.bufs[b]]
    requires forall s :: 0 <= s < STATIONS ==> (p'.bufs[b].Counted(s) <==> p.bufs[b].Counted(s))
    requires p'.pending == p.pending && p'.flowctrl == p.flowctrl
    ensures Accounted(p')
  {
    forall s | 0 <= s < STATIONS ensures AccountedFor(p', s) {
      assert AccountedFor(p, s);
      CountedUpdate(p.bufs, b, p'.bufs[b], s);
    }
  }

  lemma SameAccounts(p: Pool, p': Pool)
    requires Accounted(p) && p'.bufs == p.bufs && p'.pending == p.pending && p'.flowctrl == p.flowctrl
    ensures Accounted(p')
  {
    forall s | 0 <= s < STATIONS ensures AccountedFor(p', s) {
      assert AccountedFor(p, s);
    }
  }

  lemma StepAccounts(s: System, e: Event)
    requires Conserved(s.p) && Accounted(s.p) && Enabled(s, e)
    ensures Accounted(Apply(s, e).p)
  {
    var p, p' := s.p, Apply(s, e).p;
    match e
    case TxGet => if p.freeList != [] { MoveAccounts(p, p', p.freeList[0]); }
    case TxCount(b, sta, ap) => CountAccounts(p, b, sta, ap);
    case TxPost(b) => MoveAccounts(p, p', b);
    case SubmitOk => MoveAccounts(p, p', p.postList[0]);
    case SubmitFail(ap) =>
      var b := p.postList[0];
      SubmitConserves(p);
      MoveAccounts(p, Submit(p), b);
      UncountAccounts(Submit(p), b, ap);
      MoveAccounts(Uncount(Submit(p), b, ap), p', b);
    case DoneUncount(b, ap) => UncountAccounts(p, b, ap);
    case DoneFree(b) => MoveAccounts(p, p', b);
    case _ => SameAccounts(p, p');
  }

  // ---------------------------------------------------------------------------
  // Watermarks
  // ---------------------------------------------------------------------------

  /** Stopped queues with plenty of free buffers are about to be woken. */
  ghost predicate FlowOk(s: System) {
    && (s.p.tbusy && s.p.freeCount > HIGH_WATER ==> s.checks > 0 || s.lock == Waking(true))
    && (s.lock == Stopping(true) && s.p.freeCount > HIGH_WATER ==> s.checks > 0)
  }

  /** The one step that leaves the queues stopped: a refused submission returns the
      buffer that crosses the high watermark, and makes no check. */
  predicate Strands(s: System, e: Event) {
    && e.SubmitFail?
    && s.p.freeCount + 1 > HIGH_WATER && s.checks == 0
    && (s.lock == Stopping(true) || (s.p.tbusy && s.lock != Waking(true)))
  }

  lemma StepKeepsFlow(s: System, e: Event)
    requires Conserved(s.p) && FlowOk(s) && Enabled(s, e)
    ensures FlowOk(Apply(s, e)) <==> !Strands(s, e)
  {
  }

  ghost predicate NeverStrands(s: System, es: seq<Event>)
    requires Run(s, es)
    decreases |es|
  {
    es == [] || (!Strands(s, es[0]) && NeverStrands(Apply(s, es[0]), es[1..]))
  }

  lemma InitialOk()
    ensures Conserved(InitialPool()) && Accounted(InitialPool()) && FlowOk(Initial())
  {
    var p := InitialPool();
    forall b | 0 <= b < |p.bufs| ensures b in p.freeList {
      assert p.freeList[b] == b;
    }
    forall s | 0 <= s < STATIONS ensures AccountedFor(p, s) {
      NoneCounted(p.bufs, s);
    }
  }

  lemma {:induction false} NoneCounted(bufs: seq<Buf>, s: nat)
    requires forall b :: 0 <= b < |bufs| ==> !bufs[b].Counted(s)
    ensures Counted(bufs, s) == 0
    decreases |bufs|
  {
    if bufs != [] { NoneCounted(bufs[..|bufs| - 1], s); }
  }

  lemma {:induction false} RunConserves(s: System, es: seq<Event>)
    requires Conserved(s.p) && Accounted(s.p) && Run(s, es)
    ensures Conserved(Final(s, es).p) && Accounted(Final(s, es).p)
    decreases |es|
  {
    if es != [] {
      StepConserves(s, es[0]);
      StepAccounts(s, es[0]);
      RunConserves(Apply(s, es[0]), es[1..]);
    }
  }

  lemma {:induction false} RunKeepsFlow(s: System, es: seq<Event>)
    requires Conserved(s.p) && FlowOk(s) && Run(s, es) && NeverStrands(s, es)
    ensures FlowOk(Final(s, es))
    decreases |es|
  {
    if es != [] {
      StepConserves(s, es[0]);
      StepKeepsFlow(s, es[0]);
      RunKeepsFlow(Apply(s, es[0]), es[1..]);
    }
  }

  /** In every reachable state each buffer has exactly one holder and the counters
      are the list lengths; every station's counter is the number of its frames in
      flight, at most the number of buffers, so the per-station stop threshold is
      never reached and its flag never set. */
  lemma PoolTheorem(es: seq<Event>, sta: nat)
    requires Run(Initial(), es) && sta < STATIONS
    ensures var p := Final(Initial(), es).p;
            && Conserved(p)
            && |p.pending| == |p.flowctrl| == STATIONS
            && p.pending[sta] == Counted(p.bufs, sta) <= URBS < STA_HIGH_WATER
            && !p.flowctrl[sta]
  {
    InitialOk();
    RunConserves(Initial(), es);
    assert AccountedFor(Final(Initial(), es).p, sta);
  }

  /** Without a stranding failure the queues are never left stopped: once no
      completion has a check to make and the flow lock is free, stopped queues mean
      that few buffers are free. */
  lemma QueuesAreWoken(es: seq<Event>)
    requires Run(Initial(), es) && NeverStrands(Initial(), es)
    requires var s := Final(Initial(), es); s.checks == 0 && s.lock.Unlocked?
    ensures var p := Final(Initial(), es).p; p.tbusy ==> |p.freeList| <= HIGH_WATER
  {
    InitialOk();
    RunConserves(Initial(), es);
    RunKeepsFlow(Initial(), es);
  }

  // ---------------------------------------------------------------------------
  // Failures can strand the queues
  // ---------------------------------------------------------------------------

  lemma RunCons(s: System, e: Event, es: seq<Event>)
    requires Enabled(s, e) && Run(Apply(s, e), es)
    ensures Run(s, [e] + es) && Final(s, [e] + es) == Final(Apply(s, e), es)
  {
    assert ([e] + es)[1..] == es;
  }

  lemma {:induction false} RunAppend(s: System, a: seq<Event>, b: seq<Event>)
    requires Run(s, a) && Run(Final(s, a), b)
    ensures Run(s, a + b) && Final(s, a + b) == Final(Final(s, a), b)
    decreases |a|
  {
    if a == [] {
      assert a + b == b;
    } else {
      RunAppend(Apply(s, a[0]), a[1..], b);
      assert a + b == [a[0]] + (a[1..] + b);
      RunCons(s, a[0], a[1..] + b);
    }
  }

  lemma RunOne(s: System, e: Event)
    requires Enabled(s, e)
    ensures Run(s, [e]) && Final(s, [e]) == Apply(s, e)
  {
    assert Run(Apply(s, e), []) && [e][1..] == [];
  }

  function Between(lo: nat, hi: nat): seq<nat>
    requires lo <= hi
  {
    seq(hi - lo, i requires 0 <= i < hi - lo => lo + i)
  }

  /** Buffers `lo` up to `hi` are posted, the others free. */
  function PostedBetween(lo: nat, hi: nat, free: seq<nat>, tbusy: bool): Pool
    requires lo <= hi
  {
    Pool(free, |free|, Between(lo, hi), hi - lo,
         seq(URBS, b requires 0 <= b => Buf(if lo <= b < hi then Posted else Free, None)),
         seq(STATIONS, _ => 0), seq(STATIONS, _ => false), tbusy)
  }

  function Filled(k: nat): System
    requires k <= URBS
  {
    System(PostedBetween(0, k, Between(k, URBS), false), Unlocked, k, 0)
  }

  function Failed(j: nat): System
    requires j <= URBS
  {
    System(PostedBetween(j, URBS, Between(0, j), true), Unlocked, URBS - 1, 0)
  }

  lemma FillOne(k: nat) returns (es: seq<Event>)
    requires k < URBS
    ensures Run(Filled(k), es) && Final(Filled(k), es) == Filled(k + 1)
  {
    var s := Filled(k);
    var s1 := Apply(s, TxGet);
    var s2 := Apply(s1, TxCount(k, None, false));
    var s3 := Apply(s2, TxPost(k));
    RunOne(s, TxGet);
    RunOne(s1, TxCount(k, None, false));
    RunOne(s2, TxPost(k));
    RunAppend(s, [TxGet], [TxCount(k, None, false)]);
    es := [TxGet] + [TxCount(k, None, false)] + [TxPost(k)];
    RunAppend(s, [TxGet] + [TxCount(k, None, false)], [TxPost(k)]);
    assert s3.p.bufs == Filled(k + 1).p.bufs;
    assert s3.p.postList == Between(0, k + 1) && s3.p.freeList == Between(k + 1, URBS);
  }

  lemma {:induction false} FillTo(k: nat) returns (es: seq<Event>)
    requires k <= URBS
    ensures Run(Initial(), es) && Final(Initial(), es) == Filled(k)
    decreases k
  {
    if k == 0 {
      es := [];
      assert Initial().p.bufs == Filled(0).p.bufs && Initial().p.freeList == Between(0, URBS);
    } else {
      var a := FillTo(k - 1);
      var b := FillOne(k - 1);
      RunAppend(Initial(), a, b);
      es := a + b;
    }
  }

  lemma FailOne(j: nat)
    requires j < URBS
    ensures Enabled(Failed(j), SubmitFail(false)) && Apply(Failed(j), SubmitFail(false)) == Failed(j + 1)
  {
    var s' := Apply(Failed(j), SubmitFail(false));
    assert s'.p.bufs == Failed(j + 1).p.bufs;
    assert s'.p.postList == Between(j + 1, URBS) && s'.p.freeList == Between(0, j + 1);
  }

  lemma {:induction false} FailFrom(j: nat) returns (es: seq<Event>)
    requires j <= URBS
    ensures Run(Failed(j), es) && Final(Failed(j), es) == Failed(URBS)
    decreases URBS - j
  {
    if j == URBS {
      es := [];
    } else {
      FailOne(j);
      var rest := FailFrom(j + 1);
      RunCons(Failed(j), SubmitFail(false), rest);
      es := [SubmitFail(false)] + rest;
    }
  }

  /** All buffers are posted and the queues stopped; every submission is refused;
      then every buffer is free again, no check is outstanding, and the queues are
      still stopped. */
  lemma QueuesCanStayStopped() returns (es: seq<Event>)
    ensures Run(Initial(), es)
    ensures var s := Final(Initial(), es);
            s.p.tbusy && |s.p.freeList| == URBS && s.checks == 0 && s.lock.Unlocked?
  {
    var a := FillTo(URBS);
    var s := Filled(URBS);
    var s1 := Apply(s, StopAcquire);
    var s2 := Apply(s1, StopRelease);
    RunOne(s, StopAcquire);
    RunOne(s1, StopRelease);
    RunAppend(s, [StopAcquire], [StopRelease]);
    assert s2.p.bufs == Failed(0).p.bufs && s2 == Failed(0);
    var b := FailFrom(0);
    RunAppend(s, [StopAcquire] + [StopRelease], b);
    RunAppend(Initial(), a, [StopAcquire] + [StopRelease] + b);
    es := a + ([StopAcquire] + [StopRelease] + b);
  }

  // ---------------------------------------------------------------------------
  // The object
  // ---------------------------------------------------------------------------

  /** What the drain loop meets at each turn: the bus is down, or the submission
      succeeds, fails, or fails because the device is gone. */
  datatype Outcome = Down | Accepted | Refused(ap: bool) | Gone(ap: bool)

  ghost predicate Usable(p: Pool) {
    && Conserved(p) && |p.pending| == |p.flowctrl| == STATIONS
    && forall b :: 0 <= b < |p.bufs| ==> ValidSta(p.bufs[b].sta, p)
  }

  lemma SubmitUsable(p: Pool)
    requires Usable(p) && p.postList != []
    ensures Usable(Submit(p)) && |Submit(p).postList| < |p.postList|
  {
    SubmitConserves(p);
    assert ValidSta(p.bufs[p.postList[0]].sta, p);
  }

  lemma FailUsable(p: Pool, ap: bool)
    requires Usable(p) && p.postList != []
    ensures ValidSta(p.bufs[p.postList[0]].sta, p)
    ensures Usable(FailSubmit(p, ap)) && |FailSubmit(p, ap).postList| < |p.postList|
  {
    assert ValidSta(p.bufs[p.postList[0]].sta, p);
    StepConserves(System(p, Unlocked, 0, 0), SubmitFail(ap));
    var p' := FailSubmit(p, ap);
    forall b | 0 <= b < |p'.bufs| ensures ValidSta(p'.bufs[b].sta, p') {
      assert ValidSta(p.bufs[b].sta, p);
    }
  }

  lemma SendConserves(p: Pool, sta: Option<nat>, ap: bool)
    requires Conserved(p) && p.freeList != [] && ValidSta(sta, p)
    ensures var b := p.freeList[0]; Conserved(Post(CountFor(TakeFree(p), b, sta, ap), b))
  {
    var b := p.freeList[0];
    var p1 := TakeFree(p);
    StepConserves(System(p, Unlocked, 0, 0), TxGet);
    StepConserves(System(p1, Unlocked, 0, 0), TxCount(b, sta, ap));
    StepConserves(System(CountFor(p1, b, sta, ap), Unlocked, 0, 0), TxPost(b));
  }

  /** `aicwf_usb_tx_process`: drain the post list in order. */
  ghost function Drained(p: Pool, outcome: nat -> Outcome, k: nat): Pool
    requires Usable(p)
    decreases |p.postList|
  {
    if p.postList == [] then p
    else match outcome(k)
      case Down => p
      case Accepted => SubmitUsable(p); Drained(Submit(p), outcome, k + 1)
      case Refused(ap) => FailUsable(p, ap); Drained(FailSubmit(p, ap), outcome, k + 1)
      case Gone(ap) => FailUsable(p, ap); FailSubmit(p, ap)
  }

  /** The buffers of `list` from the `k`-th up to the `n`-th whose submission failed. */
  function Failures(list: seq<nat>, outcome: nat -> Outcome, k: nat, n: nat): seq<nat>
    requires n <= |list|
    decreases n
  {
    if n == 0 then []
    else Failures(list, outcome, k, n - 1) + if outcome(k + n - 1).Accepted? then [] else [list[n - 1]]
  }

  /** What a drain leaves, when it met the outcomes from the `k`-th on: it took `n` buffers
      off the front of the post list, and ended only because none was left, the bus was
      down, or the device was gone; those accepted are with the USB core, the others are
      free again, in order. */
  ghost predicate DrainedTo(p: Pool, q: Pool, outcome: nat -> Outcome, k: nat, n: nat) {
    && n <= |p.postList| && |q.bufs| == |p.bufs|
    && q.postList == p.postList[n..]
    && (n == |p.postList| || outcome(k + n).Down? || (n > 0 && outcome(k + n - 1).Gone?))
    && (forall j :: k <= j < k + n ==> !outcome(j).Down?)
    && (forall j :: k <= j < k + n - 1 ==> !outcome(j).Gone?)
    && q.freeList == p.freeList + Failures(p.postList, outcome, k, n)
    && q.tbusy == p.tbusy
    && (forall b :: 0 <= b < |p.bufs| ==> DrainedBuf(p, q, outcome, k, n, b))
  }

  ghost predicate DrainedBuf(p: Pool, q: Pool, outcome: nat -> Outcome, k: nat, n: nat, b: nat)
    requires b < |p.bufs| == |q.bufs| && n <= |p.postList|
  {
    && (b !in p.postList[..n] ==> q.bufs[b] == p.bufs[b])
    && (forall j :: 0 <= j < n && p.postList[j] == b ==>
          q.bufs[b].phase == PhaseAfter(outcome(k + j)))
  }

  lemma {:induction false} FailuresCons(list: seq<nat>, outcome: nat -> Outcome, k: nat, n: nat)
    requires n < |list|
    ensures Failures(list, outcome, k, n + 1)
         == (if outcome(k).Accepted? then [] else [list[0]]) + Failures(list[1..], outcome, k + 1, n)
    decreases n
  {
    if n > 0 {
      FailuresCons(list, outcome, k, n - 1);
      assert list[1..][n - 1] == list[n];
      Assoc(if outcome(k).Accepted? then [] else [list[0]], Failures(list[1..], outcome, k + 1, n - 1),
            if outcome(k + n).Accepted? then [] else [list[n]]);
    }
  }

  lemma Assoc(a: seq<nat>, b: seq<nat>, c: seq<nat>)
    ensures (a + b) + c == a + (b + c)
  {
  }

  ghost predicate Distinct(list: seq<nat>) { forall i, j :: 0 <= i < j < |list| ==> list[i] != list[j] }

  /** Where a buffer is after its submission. */
  function PhaseAfter(o: Outcome): Phase { if o.Accepted? then Submitted else Free }

  /** `p1` is what one turn of the drain with outcome `o` makes of `p`. */
  ghost predicate Turned(p: Pool, p1: Pool, o: Outcome) {
    && p.postList != [] && p.postList[0] < |p.bufs| == |p1.bufs|
    && p1.postList == p.postList[1..] && p1.tbusy == p.tbusy
    && p1.freeList == p.freeList + (if o.Accepted? then [] else [p.postList[0]])
    && (forall b :: 0 <= b < |p.bufs| && b != p.postList[0] ==> p1.bufs[b] == p.bufs[b])
    && p1.bufs[p.postList[0]].phase == PhaseAfter(o)
  }

  lemma SubmitTurns(p: Pool)
    requires Usable(p) && p.postList != []
    ensures Turned(p, Submit(p), Accepted)
  {
  }

  lemma FailTurns(p: Pool, ap: bool, o: Outcome)
    requires Usable(p) && p.postList != [] && !o.Accepted?
    ensures ValidSta(p.bufs[p.postList[0]].sta, p) && Turned(p, FailSubmit(p, ap), o)
  {
    assert ValidSta(p.bufs[p.postList[0]].sta, p);
  }

  lemma TurnMeaning(p: Pool, outcome: nat -> Outcome, k: nat) returns (p1: Pool)
    requires Usable(p) && p.postList != [] && !outcome(k).Down?
    ensures Usable(p1) && |p1.postList| < |p.postList| && Turned(p, p1, outcome(k)) && Distinct(p.postList)
    ensures Drained(p, outcome, k) == if outcome(k).Gone? then p1 else Drained(p1, outcome, k + 1)
  {
    var o := outcome(k);
    if o.Accepted? {
      SubmitUsable(p);
      SubmitTurns(p);
      p1 := Submit(p);
    } else {
      FailUsable(p, o.ap);
      FailTurns(p, o.ap, o);
      p1 := FailSubmit(p, o.ap);
    }
  }

  /** One turn of the drain, followed by the rest of it. */
  lemma DrainedCons(p: Pool, p1: Pool, q: Pool, outcome: nat -> Outcome, k: nat, n: nat, n': nat)
    requires Turned(p, p1, outcome(k)) && Distinct(p.postList) && n' == n + 1 && !outcome(k).Down?
    requires if outcome(k).Gone? then n == 0 && q == p1 else DrainedTo(p1, q, outcome, k + 1, n)
    ensures DrainedTo(p, q, outcome, k, n')
  {
    FailuresCons(p.postList, outcome, k, n);
    forall b | 0 <= b < |p.bufs| ensures DrainedBuf(p, q, outcome, k, n', b) {
      DrainedConsBuf(p, p1, q, outcome, k, n, n', b);
    }
  }

  lemma DrainedConsBuf(p: Pool, p1: Pool, q: Pool, outcome: nat -> Outcome, k: nat, n: nat, n': nat, b: nat)
    requires Turned(p, p1, outcome(k)) && Distinct(p.postList) && n' == n + 1 <= |p.postList| && b < |p.bufs|
    requires if outcome(k).Gone? then n == 0 && q == p1 else DrainedTo(p1, q, outcome, k + 1, n)
    ensures |q.bufs| == |p.bufs| && DrainedBuf(p, q, outcome, k, n', b)
  {
    assert n > 0 || !outcome(k).Gone? ==> DrainedBuf(p1, q, outcome, k + 1, n, b);
    assert p.postList[..n'] == [p.postList[0]] + p1.postList[..n];
    forall j | 0 <= j < n' && p.postList[j] == b ensures q.bufs[b].phase == PhaseAfter(outcome(k + j)) {
      if j > 0 {
        assert p1.postList[j - 1] == b;
        assert (k + 1) + (j - 1) == k + j;
      } else {
        assert b !in p1.postList[..n];
      }
    }
  }

  lemma NothingDrained(p: Pool, outcome: nat -> Outcome, k: nat)
    requires Usable(p) && (p.postList == [] || outcome(k).Down?)
    ensures DrainedTo(p, Drained(p, outcome, k), outcome, k, 0)
  {
    forall b | 0 <= b < |p.bufs| ensures DrainedBuf(p, p, outcome, k, 0, b) {
    }
  }

  lemma {:induction false} DrainedMeaning(p: Pool, outcome: nat -> Outcome, k: nat) returns (n: nat)
    requires Usable(p)
    ensures DrainedTo(p, Drained(p, outcome, k), outcome, k, n)
    decreases |p.postList|
  {
    if p.postList == [] || outcome(k).Down? {
      NothingDrained(p, outcome, k);
      return 0;
    }
    var p1 := TurnMeaning(p, outcome, k);
    var q, m := Drained(p, outcome, k), 0;
    if !outcome(k).Gone? {
      m := DrainedMeaning(p1, outcome, k + 1);
    }
    n := m + 1;
    DrainedCons(p, p1, q, outcome, k, m, n);
  }

  /** The same for a whole drain, as facts about the lists and buffers. */
  lemma Drains(p: Pool, outcome: nat -> Outcome) returns (n: nat)
    requires Usable(p)
    ensures var q := Drained(p, outcome, 0);
            && n <= |p.postList| && q.postList == p.postList[n..] && |q.bufs| == |p.bufs|
            && (n == |p.postList| || outcome(n).Down? || (n > 0 && outcome(n - 1).Gone?))
            && (forall j :: 0 <= j < n ==> !outcome(j).Down?)
            && (forall j :: 0 <= j < n - 1 ==> !outcome(j).Gone?)
            && q.freeList == p.freeList + Failures(p.postList, outcome, 0, n)
            && (forall j :: 0 <= j < n ==>
                  0 <= p.postList[j] < |q.bufs|
                  && q.bufs[p.postList[j]].phase == if outcome(j).Accepted? then Submitted else Free)
            && (forall b :: 0 <= b < |q.bufs| && b !in p.postList[..n] ==> q.bufs[b] == p.bufs[b])
  {
    n := DrainedMeaning(p, outcome, 0);
    var q := Drained(p, outcome, 0);
    forall j | 0 <= j < n
      ensures 0 <= p.postList[j] < |q.bufs|
              && q.bufs[p.postList[j]].phase == if outcome(j).Accepted? then Submitted else Free
    {
      assert DrainedBuf(p, q, outcome, 0, n, p.postList[j]);
      assert outcome(0 + j) == outcome(j);
    }
    forall b | 0 <= b < |q.bufs| && b !in p.postList[..n] ensures q.bufs[b] == p.bufs[b] {
      assert DrainedBuf(p, q, outcome, 0, n, b);
    }
  }

  class UsbTx {
    var freeList: seq<nat>
    var freeCount: int
    var postList: seq<nat>
    var postCount: int
    var bufs: seq<Buf>
    var pending: seq<int>
    var flowctrl: seq<bool>
    var tbusy: bool

    ghost function View(): Pool
      reads this
    {
      Pool(freeList, freeCount, postList, postCount, bufs, pending, flowctrl, tbusy)
    }

    constructor ()
      ensures View() == InitialPool()
    {
      freeList, freeCount := seq(URBS, i requires 0 <= i => i), URBS;
      postList, postCount := [], 0;
      bufs := seq(URBS, _ => Buf(Free, None));
      pending, flowctrl, tbusy := seq(STATIONS, _ => 0), seq(STATIONS, _ => false), false;
    }

    method StationSend(b: nat, sta: Option<nat>, ap: bool)
      requires b < |bufs| && ValidSta(sta, View())
      modifies this`bufs, this`pending, this`flowctrl
      ensures View() == CountFor(old(View()), b, sta, ap)
    {
      bufs := bufs[b := Buf(Filling, sta)];
      if sta.Some? {
        var s := sta.value;
        pending := pending[s := pending[s] + 1];
        if ap && ((pending[s] >= STA_HIGH_WATER && !flowctrl[s]) || flowctrl[s]) {
          flowctrl := flowctrl[s := true];
        }
      }
    }

    method StationDone(b: nat, ap: bool)
      requires b < |bufs| && ValidSta(bufs[b].sta, View())
      modifies this`bufs, this`pending, this`flowctrl
      ensures View() == Uncount(old(View()), b, ap)
    {
      var sta := bufs[b].sta;
      bufs := bufs[b := bufs[b].(phase := Releasing)];
      if sta.Some? {
        var s := sta.value;
        pending := pending[s := pending[s] - 1];
        if ap && pending[s] < STA_LOW_WATER && flowctrl[s] {
          flowctrl := flowctrl[s := false];
        }
      }
    }

    method DequeueFree() returns (b: nat)
      requires freeList != [] && freeList[0] < |bufs|
      modifies this`freeList, this`freeCount, this`bufs
      ensures b == old(freeList)[0] && View() == TakeFree(old(View()))
    {
      b := freeList[0];
      freeList := freeList[1..];
      freeCount := freeCount - 1;
      bufs := bufs[b := bufs[b].(phase := Taken)];
    }

    method QueuePost(b: nat)
      requires b < |bufs|
      modifies this`postList, this`postCount, this`bufs
      ensures View() == Post(old(View()), b)
    {
      postList := postList + [b];
      postCount := postCount + 1;
      bufs := bufs[b := bufs[b].(phase := Posted)];
    }

    method QueueFree(b: nat)
      requires b < |bufs|
      modifies this`freeList, this`freeCount, this`bufs
      ensures View() == PutFree(old(View()), b)
    {
      freeList := freeList + [b];
      freeCount := freeCount + 1;
      bufs := bufs[b := bufs[b].(phase := Free)];
    }

    /** `aicwf_usb_bus_txdata`, run without interference. */
    method TxData(up: bool, sta: Option<nat>, ap: bool) returns (ok: bool)
      requires Conserved(View()) && ValidSta(sta, View())
      modifies this
      ensures Conserved(View())
      ensures ok <==> up && old(freeList) != []
      ensures !up ==> View() == old(View())
      ensures up && !ok ==> View() == StopCheck(old(View()), 0 < LOW_WATER)
      ensures ok ==> freeList == old(freeList)[1..] && postList == old(postList) + [old(freeList)[0]]
      ensures up ==> (tbusy <==> old(tbusy) || |freeList| < 12)
      ensures ok ==> pending == (if sta.Some? then old(pending)[sta.value := old(pending)[sta.value] + 1] else old(pending))
      ensures |flowctrl| == |old(flowctrl)|
      ensures ok && sta.Some? ==>
                (flowctrl[sta.value] <==> old(flowctrl)[sta.value] || (ap && old(pending)[sta.value] + 1 >= 64))
      ensures ok ==> var p, b := old(View()), old(freeList)[0];
                     View() == StopCheck(Post(CountFor(TakeFree(p), b, sta, ap), b), p.freeCount - 1 < LOW_WATER)
    {
      if !up {
        return false;
      }
      ok := freeList != [];
      if ok {
        SendConserves(View(), sta, ap);
        var b := DequeueFree();
        StationSend(b, sta, ap);
        QueuePost(b);
      }
      if freeCount < LOW_WATER {
        tbusy := true;
      }
    }

    /** `aicwf_usb_tx_complete`, run without interference. */
    method TxComplete(b: nat, ap: bool)
      requires Conserved(View()) && b < |bufs| && bufs[b].phase.Submitted? && ValidSta(bufs[b].sta, View())
      modifies this
      ensures Conserved(View())
      ensures View() == WakeCheck(PutFree(Uncount(old(View()), b, ap), b), old(freeCount) + 1 > HIGH_WATER)
      ensures freeList == old(freeList) + [b] && postList == old(postList)
      ensures tbusy <==> old(tbusy) && |freeList| <= 36
      ensures |flowctrl| == |old(flowctrl)|
      ensures var sta := old(bufs)[b].sta;
              && pending == (if sta.Some? then old(pending)[sta.value := old(pending)[sta.value] - 1] else old(pending))
              && (sta.Some? ==>
                    (flowctrl[sta.value] <==> old(flowctrl)[sta.value] && !(ap && old(pending)[sta.value] - 1 < 16)))
    {
      StepConserves(System(View(), Unlocked, 0, 0), DoneUncount(b, ap));
      StationDone(b, ap);
      FreeConserves(View(), b);
      QueueFree(b);
      if freeCount > HIGH_WATER {
        if tbusy {
          tbusy := false;
        }
      }
    }

    /** One turn of the drain loop. */
    method SubmitNext(o: Outcome)
      requires Usable(View()) && postList != [] && !o.Down?
      modifies this
      ensures ValidSta(old(bufs)[old(postList)[0]].sta, old(View()))
      ensures View() == if o.Accepted? then Submit(old(View())) else FailSubmit(old(View()), o.ap)
    {
      var b := postList[0];
      assert ValidSta(bufs[b].sta, View());
      postList := postList[1..];
      postCount := postCount - 1;
      bufs := bufs[b := bufs[b].(phase := Submitted)];
      if !o.Accepted? {
        StationDone(b, o.ap);
        QueueFree(b);
      }
    }

    /** `aicwf_usb_tx_process`: `n` buffers leave the post list, and as many as the bus
        and the device let. */
    method TxProcess(outcome: nat -> Outcome) returns (ghost n: nat)
      requires Usable(View())
      modifies this
      ensures Usable(View()) && View() == Drained(old(View()), outcome, 0)
      ensures n <= |old(postList)| && postList == old(postList)[n..]
      ensures n == |old(postList)| || outcome(n).Down? || (n > 0 && outcome(n - 1).Gone?)
      ensures forall j :: 0 <= j < n ==> !outcome(j).Down?
      ensures forall j :: 0 <= j < n - 1 ==> !outcome(j).Gone?
      ensures freeList == old(freeList) + Failures(old(postList), outcome, 0, n)
      ensures forall j :: 0 <= j < n ==>
                0 <= old(postList)[j] < |bufs|
                && bufs[old(postList)[j]].phase == if outcome(j).Accepted? then Submitted else Free
      ensures |bufs| == |old(bufs)| && forall b :: 0 <= b < |bufs| && b !in old(postList)[..n] ==> bufs[b] == old(bufs)[b]
    {
      n := Drains(View(), outcome);
      Drain(outcome);
    }

    /** Its loop. */
    method Drain(outcome: nat -> Outcome)
      requires Usable(View())
      modifies this
      ensures Usable(View()) && View() == Drained(old(View()), outcome, 0)
    {
      var k := 0;
      while postList != []
        invariant Usable(View())
        invariant Drained(old(View()), outcome, 0) == Drained(View(), outcome, k)
        decreases |postList|
      {
        var o := outcome(k);
        if o.Down? {
          return;
        }
        if o.Accepted? {
          SubmitUsable(View());
        } else {
          FailUsable(View(), o.ap);
        }
        SubmitNext(o);
        if o.Gone? {
          return;
        }
        k := k + 1;
      }
    }
  }
}
