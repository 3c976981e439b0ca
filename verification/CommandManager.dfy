/** The firmware command manager (rwnx_cmds.c).

    Callers append commands to one list and either push them to the firmware
    themselves (direct) or leave them to a single worker (deferred).  Everything
    meets on that list, so the manager is modelled as

    - `Manager`, the value guarded by the spin lock, and one function per
      critical section;
    - `CommandQueue`, the object whose methods are those critical sections;
    - `System`, the manager together with the program counters of callers and
      worker, stepping by `Event`s that may interleave in any order.

    Every command is blocking and asks for a confirmation, as both senders of
    rwnx_msg_tx.c arrange. */
module CommandManager {
  import opened Machine

  const MAX_QUEUED: nat := 16

  datatype Result = Interrupted | Success | TimedOut

  /** A listed command.  `ord` is its identity (the source's pointer): its
      position in the order of accepted commands.  `sent` records that the message
      reached the bus, `completed` that the completion was signalled and `waited`
      that some thread still waits on it. */
  datatype Cmd = Cmd(
    ord: nat, tkn: nat, reqid: int, direct: bool,
    waitPush: bool, waitCfm: bool, done: bool, completed: bool,
    result: Result, sent: bool, waited: bool)
  {
    /** WAIT_ACK is never set, so these are the flags tested before a direct push. */
    predicate Waits() { waitPush || waitCfm }

    predicate InFlight() { !waitPush && waitCfm }
  }

  datatype Manager = Manager(cmds: seq<Cmd>, queueSz: int, nextTkn: nat, accepted: nat, crashed: bool)

  /** `trafficInd`: the message id is one of those always left to the worker;
      `wantsReply`: the caller supplied a reply buffer and so first waits for an
      empty list. */
  datatype Request = Request(reqid: int, trafficInd: bool, wantsReply: bool)

  datatype Outcome = PushNow | Deferred | BrokenPipe | NoMemory

  // ---------------------------------------------------------------------------
  // Critical sections
  // ---------------------------------------------------------------------------

  function Verdict(m: Manager, r: Request, force: bool): Outcome {
    if m.crashed then BrokenPipe
    else if m.cmds != [] && m.queueSz == MAX_QUEUED then NoMemory
    else if force || r.trafficInd || (m.cmds != [] && m.cmds[|m.cmds| - 1].Waits()) then Deferred
    else PushNow
  }

  predicate Accepts(o: Outcome) { o.PushNow? || o.Deferred? }

  function NewCmd(m: Manager, r: Request, defer: bool): Cmd {
    Cmd(m.accepted, m.nextTkn, r.reqid, !defer, defer, true, false, false, Interrupted, false, true)
  }

  /** The locked part of `cmd_mgr_queue` and of `cmd_mgr_queue_force_defer`. */
  function Append(m: Manager, r: Request, force: bool): Manager {
    var o := Verdict(m, r, force);
    if Accepts(o) then
      Manager(m.cmds + [NewCmd(m, r, o.Deferred?)], m.queueSz + 1,
              (m.nextTkn + 1) % U32, m.accepted + 1, m.crashed)
    else m
  }

  /** Position of command `ord`, or the length of the list. */
  function IndexOf(cmds: seq<Cmd>, ord: nat): (i: nat)
    ensures i <= |cmds|
    ensures i < |cmds| ==> cmds[i].ord == ord
    ensures forall k :: 0 <= k < i ==> cmds[k].ord != ord
  {
    if cmds == [] || cmds[0].ord == ord then 0 else 1 + IndexOf(cmds[1..], ord)
  }

  predicate Listed(m: Manager, ord: nat) { IndexOf(m.cmds, ord) < |m.cmds| }

  function Get(m: Manager, ord: nat): Cmd
    requires Listed(m, ord)
  {
    m.cmds[IndexOf(m.cmds, ord)]
  }

  function Put(m: Manager, ord: nat, c: Cmd): Manager
    requires Listed(m, ord)
  {
    m.(cmds := m.cmds[IndexOf(m.cmds, ord) := c])
  }

  function Unlink(m: Manager, ord: nat): Manager
    requires Listed(m, ord)
  {
    var i := IndexOf(m.cmds, ord);
    m.(cmds := m.cmds[..i] + m.cmds[i + 1..], queueSz := m.queueSz - 1)
  }

  /** `cmd_complete` for a blocking command. */
  function Complete(c: Cmd): Cmd {
    if c.waitCfm then c.(done := true)
    else c.(done := true, result := Success, completed := true)
  }

  /** A wait on `ord` ran out: the manager is declared crashed and the command,
      still listed, is completed unless it already was. */
  function Expire(m: Manager, ord: nat): Manager
    requires Listed(m, ord)
  {
    var c := Get(m, ord).(waited := false);
    Put(m, ord, if c.done then c else Complete(c.(result := TimedOut))).(crashed := true)
  }

  /** First listed command that expects message `id` and whose callback returns 0. */
  function FirstMatch(cmds: seq<Cmd>, id: int, accepting: set<nat>): (i: nat)
    ensures i <= |cmds|
    ensures i < |cmds| ==> Matches(cmds[i], id, accepting)
    ensures forall k :: 0 <= k < i ==> !Matches(cmds[k], id, accepting)
  {
    if cmds == [] || Matches(cmds[0], id, accepting) then 0 else 1 + FirstMatch(cmds[1..], id, accepting)
  }

  lemma FirstMatchAt(cmds: seq<Cmd>, id: int, accepting: set<nat>, i: nat)
    requires i < |cmds| && Matches(cmds[i], id, accepting)
    requires forall k :: 0 <= k < i ==> !Matches(cmds[k], id, accepting)
    ensures FirstMatch(cmds, id, accepting) == i
  {
  }

  predicate Matches(c: Cmd, id: int, accepting: set<nat>) {
    c.reqid == id && c.waitCfm && c.ord in accepting
  }

  function Confirmed(c: Cmd): Cmd { Complete(c.(waitCfm := false)) }

  /** `cmd_mgr_msgind`; `accepting` are the commands on which the callback returns 0. */
  function MsgInd(m: Manager, id: int, accepting: set<nat>): Manager {
    var i := FirstMatch(m.cmds, id, accepting);
    if i < |m.cmds| then m.(cmds := m.cmds[i := Confirmed(m.cmds[i])]) else m
  }

  // ---------------------------------------------------------------------------
  // The object
  // ---------------------------------------------------------------------------

  class CommandQueue {
    var cmds: seq<Cmd>
    var queueSz: int
    var nextTkn: nat
    var accepted: nat
    var crashed: bool
    var workQueued: bool

    ghost function View(): Manager
      reads this
    {
      Manager(cmds, queueSz, nextTkn, accepted, crashed)
    }

    constructor ()
      ensures View() == Manager([], 0, 0, 0, false) && !workQueued
    {
      cmds, queueSz, nextTkn, accepted, crashed, workQueued := [], 0, 0, 0, false, false;
    }

    /** Lines 158-224, or 76-114 when `force`. */
    method Enqueue(r: Request, force: bool) returns (o: Outcome)
      modifies this
      ensures o == Verdict(old(View()), r, force)
      ensures View() == Append(old(View()), r, force)
      ensures workQueued == old(workQueued)
    {
      if crashed {
        return BrokenPipe;
      }
      var defer := force;
      if cmds != [] {
        if queueSz == MAX_QUEUED {
          return NoMemory;
        }
        var last := cmds[|cmds| - 1];
        if last.waitPush || last.waitCfm {
          defer := true;
        }
      }
      if r.trafficInd {
        defer := true;
      }
      var cmd := Cmd(accepted, nextTkn, r.reqid, !defer, defer, true, false, false, Interrupted, false, true);
      nextTkn := (nextTkn + 1) % U32;
      accepted := accepted + 1;
      cmds := cmds + [cmd];
      queueSz := queueSz + 1;
      return if defer then Deferred else PushNow;
    }

    /** Lines 237-239: the test made by a deferring caller after it dropped the lock. */
    method WakeIfAlone()
      modifies this`workQueued
      ensures workQueued == (old(workQueued) || queueSz <= 1)
    {
      if queueSz <= 1 {
        workQueued := true;
      }
    }

    /** Lines 275-281 and 393-399. */
    method ListDel(ord: nat)
      requires Listed(View(), ord)
      modifies this`cmds, this`queueSz
      ensures View() == Unlink(old(View()), ord)
    {
      var i := IndexOf(cmds, ord);
      cmds := cmds[..i] + cmds[i + 1..];
      queueSz := queueSz - 1;
    }

    /** Lines 283-284: the direct caller's wake, outside the lock. */
    method WakeIfMore(busUp: bool)
      modifies this`workQueued
      ensures workQueued == (old(workQueued) || (cmds != [] && busUp))
    {
      if cmds != [] && busUp {
        workQueued := true;
      }
    }

    /** Lines 264-272 and 384-391. */
    method TimeOut(ord: nat)
      requires Listed(View(), ord)
      modifies this`cmds, this`crashed
      ensures View() == Expire(old(View()), ord)
    {
      var i := IndexOf(cmds, ord);
      crashed := true;
      var c := cmds[i].(waited := false);
      if !c.done {
        c := c.(result := TimedOut, done := true);
        if !c.waitCfm {
          c := c.(result := Success, completed := true);
        }
      }
      cmds := cmds[i := c];
    }

    /** Line 369: the worker takes WAIT_PUSH off, without the lock. */
    method ClearPush(ord: nat)
      requires Listed(View(), ord)
      modifies this`cmds
      ensures View() == Put(old(View()), ord, Get(old(View()), ord).(waitPush := false))
    {
      var i := IndexOf(cmds, ord);
      cmds := cmds[i := cmds[i].(waitPush := false)];
    }

    /** The message of a command reaches the bus. */
    method HandOver(ord: nat)
      requires Listed(View(), ord)
      modifies this`cmds
      ensures View() == Put(old(View()), ord, Get(old(View()), ord).(sent := true))
    {
      var i := IndexOf(cmds, ord);
      cmds := cmds[i := cmds[i].(sent := true)];
    }

    /** Lines 451-476: scan for the first command that takes the message. */
    method MessageIndication(id: int, accepting: set<nat>) returns (found: bool)
      modifies this`cmds
      ensures View() == MsgInd(old(View()), id, accepting)
      ensures found <==> exists k :: 0 <= k < |old(cmds)| && Matches(old(cmds)[k], id, accepting)
    {
      found := false;
      for i := 0 to |cmds|
        invariant cmds == old(cmds)
        invariant forall k :: 0 <= k < i ==> !Matches(cmds[k], id, accepting)
      {
        var c := cmds[i];
        if c.reqid == id && c.waitCfm && c.ord in accepting {
          FirstMatchAt(cmds, id, accepting, i);
          cmds := cmds[i := c.(waitCfm := false, done := true, result := Success, completed := true)];
          return true;
        }
      }
    }

    /** Lines 349-357: only the first command is examined. */
    method ScanHead() returns (next: Option<nat>)
      ensures next == if cmds != [] && cmds[0].waitPush then Some(cmds[0].ord) else None
    {
      if cmds != [] && cmds[0].waitPush {
        return Some(cmds[0].ord);
      }
      return None;
    }
  }

  // ---------------------------------------------------------------------------
  // Interleaved execution
  // ---------------------------------------------------------------------------

  /** `Picked`: found by the scan; `Cleared`: WAIT_PUSH taken off, without the lock,
      and about to be sent. */
  datatype Worker = Idle | Scanning | Picked(ord: nat) | Cleared(ord: nat) | Awaiting(ord: nat)

  /** `tests`: deferring callers that appended but have not yet run their wake test;
      `forced`: the same for the unconditional wake of `force_defer`;
      `wakers`: direct callers that unlinked their command and have yet to wake the worker;
      `log`: commands in the order in which they were handed to the bus. */
  datatype System = System(
    m: Manager, worker: Worker, workQueued: bool,
    tests: nat, forced: nat, wakers: nat, log: seq<nat>)

  datatype Event =
    | Enqueue(r: Request, force: bool)
    | WakeTest
    | ForcedWake
    | DirectSend(ord: nat)
    | DirectUnlink(ord: nat)
    | DirectWake
    | DirectTimeout(ord: nat)
    | WorkerStart
    | WorkerScan
    | WorkerClear
    | WorkerSend
    | WorkerUnlink
    | WorkerTimeout
    | Message(id: int, accepting: set<nat>)

  const INITIAL: System := System(Manager([], 0, 0, 0, false), Idle, false, 0, 0, 0, [])

  predicate DirectIs(s: System, ord: nat, sent: bool) {
    Listed(s.m, ord) && Get(s.m, ord).direct && Get(s.m, ord).waited && Get(s.m, ord).sent == sent
  }

  predicate Enabled(s: System, e: Event) {
    match e
    case Enqueue(r, force) => force || !r.wantsReply || s.m.cmds == [] || s.m.crashed
    case WakeTest => s.tests > 0
    case ForcedWake => s.forced > 0
    case DirectSend(o) => DirectIs(s, o, false)
    case DirectUnlink(o) => DirectIs(s, o, true) && Get(s.m, o).completed
    case DirectWake => s.wakers > 0
    case DirectTimeout(o) => DirectIs(s, o, true)
    case WorkerStart => s.workQueued && s.worker.Idle?
    case WorkerScan => s.worker.Scanning?
    case WorkerClear => s.worker.Picked? && Listed(s.m, s.worker.ord)
    case WorkerSend => s.worker.Cleared? && Listed(s.m, s.worker.ord)
    case WorkerUnlink => s.worker.Awaiting? && Listed(s.m, s.worker.ord) && Get(s.m, s.worker.ord).completed
    case WorkerTimeout => s.worker.Awaiting? && Listed(s.m, s.worker.ord)
    case Message(_, _) => true
  }

  function Sent(s: System, ord: nat): System
    requires Listed(s.m, ord)
  {
    s.(m := Put(s.m, ord, Get(s.m, ord).(sent := true)), log := s.log + [ord])
  }

  function Apply(s: System, e: Event): System
    requires Enabled(s, e)
  {
    match e
    case Enqueue(r, force) =>
      var s' := s.(m := Append(s.m, r, force));
      if !Verdict(s.m, r, force).Deferred? then s'
      else if force then s'.(forced := s.forced + 1)
      else s'.(tests := s.tests + 1)
    case WakeTest => s.(tests := s.tests - 1, workQueued := s.workQueued || s.m.queueSz <= 1)
    case ForcedWake => s.(forced := s.forced - 1, workQueued := true)
    case DirectSend(o) => Sent(s, o)
    case DirectUnlink(o) => s.(m := Unlink(s.m, o), wakers := s.wakers + 1)
    case DirectWake => s.(wakers := s.wakers - 1, workQueued := s.workQueued || s.m.cmds != [])
    case DirectTimeout(o) => s.(m := Expire(s.m, o))
    case WorkerStart => s.(workQueued := false, worker := Scanning)
    case WorkerScan =>
      if s.m.cmds != [] && s.m.cmds[0].waitPush then s.(worker := Picked(s.m.cmds[0].ord))
      else s.(worker := Idle)
    case WorkerClear =>
      s.(m := Put(s.m, s.worker.ord, Get(s.m, s.worker.ord).(waitPush := false)), worker := Cleared(s.worker.ord))
    case WorkerSend => Sent(s, s.worker.ord).(worker := Awaiting(s.worker.ord))
    case WorkerUnlink => s.(m := Unlink(s.m, s.worker.ord), worker := Scanning)
    case WorkerTimeout => s.(m := Expire(s.m, s.worker.ord), worker := Scanning)
    case Message(id, accepting) => s.(m := MsgInd(s.m, id, accepting))
  }

  ghost predicate Run(s: System, es: seq<Event>)
    decreases |es|
  {
    es == [] || (Enabled(s, es[0]) && Run(Apply(s, es[0]), es[1..]))
  }

  ghost function Final(s: System, es: seq<Event>): System
    requires Run(s, es)
    decreases |es|
  {
    if es == [] then s else Final(Apply(s, es[0]), es[1..])
  }

  lemma RunOne(s: System, e: Event)
    requires Enabled(s, e)
    ensures Run(s, [e]) && Final(s, [e]) == Apply(s, e)
  {
    assert Run(Apply(s, e), []) && [e][1..] == [];
  }

  lemma RunCons(s: System, e: Event, es: seq<Event>)
    requires Enabled(s, e) && Run(Apply(s, e), es)
    ensures Run(s, [e] + es) && Final(s, [e] + es) == Final(Apply(s, e), es)
  {
    assert ([e] + es)[1..] == es;
  }

  /** A driver that performs the events one after the other with the methods of the
      command queue, so that what is proved of the steps holds of the object. */
  class Driver {
    const q: CommandQueue
    var worker: Worker
    var tests: nat
    var forced: nat
    var wakers: nat
    ghost var log: seq<nat>

    ghost function State(): System
      reads this, q
    {
      System(q.View(), worker, q.workQueued, tests, forced, wakers, log)
    }

    constructor ()
      ensures State() == INITIAL && fresh(q)
    {
      q := new CommandQueue();
      worker, tests, forced, wakers, log := Idle, 0, 0, 0, [];
    }

    method Perform(e: Event)
      requires Enabled(State(), e)
      modifies this, q
      ensures State() == Apply(old(State()), e)
    {
      match e {
        case Enqueue(r, force) =>
          var o := q.Enqueue(r, force);
          if o.Deferred? {
            if force {
              forced := forced + 1;
            } else {
              tests := tests + 1;
            }
          }
        case WakeTest =>
          tests := tests - 1;
          q.WakeIfAlone();
        case ForcedWake =>
          forced := forced - 1;
          q.workQueued := true;
        case DirectSend(o) =>
          q.HandOver(o);
          log := log + [o];
        case DirectUnlink(o) =>
          q.ListDel(o);
          wakers := wakers + 1;
        case DirectWake =>
          wakers := wakers - 1;
          q.WakeIfMore(true);
        case DirectTimeout(o) => q.TimeOut(o);
        case Message(id, accepting) =>
          var found := q.MessageIndication(id, accepting);
        case _ => Work(e);
      }
    }

    /** The turns of the worker. */
    method Work(e: Event)
      requires Enabled(State(), e)
      requires e.WorkerStart? || e.WorkerScan? || e.WorkerClear? || e.WorkerSend? || e.WorkerUnlink? || e.WorkerTimeout?
      modifies this, q
      ensures State() == Apply(old(State()), e)
    {
      match e {
        case WorkerStart =>
          q.workQueued := false;
          worker := Scanning;
        case WorkerScan =>
          var next := q.ScanHead();
          worker := if next == None then Idle else Picked(next.value);
        case WorkerClear =>
          q.ClearPush(worker.ord);
          worker := Cleared(worker.ord);
        case WorkerSend =>
          q.HandOver(worker.ord);
          log := log + [worker.ord];
          worker := Awaiting(worker.ord);
        case WorkerUnlink =>
          q.ListDel(worker.ord);
          worker := Scanning;
        case WorkerTimeout =>
          q.TimeOut(worker.ord);
          worker := Scanning;
      }
    }

    /** Any run can be performed, and keeps the invariant of the list. */
    method PerformAll(es: seq<Event>)
      requires Inv(State()) && Run(State(), es)
      modifies this, q
      ensures State() == Final(old(State()), es) && Inv(State())
    {
      RunKeepsInv(State(), es);
      var k := 0;
      assert es[0..] == es;
      while k < |es|
        invariant k <= |es| && Run(State(), es[k..])
        invariant Final(State(), es[k..]) == Final(old(State()), es)
      {
        assert es[k..][0] == es[k] && es[k..][1..] == es[k + 1..];
        Perform(es[k]);
        k := k + 1;
      }
    }
  }

  // ---------------------------------------------------------------------------
  // What every step keeps
  // ---------------------------------------------------------------------------

  /** A pushed command has only finished commands before it. */
  ghost predicate PushedAfterFinished(cmds: seq<Cmd>) {
    forall i, j :: 0 <= i < j < |cmds| && !cmds[j].waitPush ==> !cmds[i].Waits()
  }

  ghost predicate CmdOk(m: Manager, c: Cmd) {
    && c.ord < m.accepted
    && c.tkn == c.ord % U32
    && (c.direct ==> !c.waitPush)
    && (c.completed ==> !c.waitCfm)
    && (c.waitPush ==> !c.sent)
  }

  ghost predicate Ascending(cmds: seq<Cmd>) {
    forall i, j :: 0 <= i < j < |cmds| ==> cmds[i].ord < cmds[j].ord
  }

  ghost predicate ManagerOk(m: Manager) {
    && m.queueSz == |m.cmds| <= MAX_QUEUED
    && m.nextTkn == m.accepted % U32
    && Ascending(m.cmds)
    && (forall i :: 0 <= i < |m.cmds| ==> CmdOk(m, m.cmds[i]))
    && PushedAfterFinished(m.cmds)
  }

  /** While the worker owns a command, it is the head of the list. */
  ghost predicate WorkerOk(s: System) {
    match s.worker
    case Picked(o) => s.m.cmds != [] && s.m.cmds[0].ord == o && s.m.cmds[0].waitPush
    case Cleared(o) =>
      s.m.cmds != [] && s.m.cmds[0].ord == o && !s.m.cmds[0].waitPush && !s.m.cmds[0].direct && !s.m.cmds[0].sent
    case Awaiting(o) =>
      s.m.cmds != [] && s.m.cmds[0].ord == o && !s.m.cmds[0].waitPush && !s.m.cmds[0].direct && s.m.cmds[0].sent
    case _ => true
  }

  ghost predicate Inv(s: System) { ManagerOk(s.m) && WorkerOk(s) }

  lemma IndexOfAt(cmds: seq<Cmd>, i: nat)
    requires i < |cmds| && Ascending(cmds)
    ensures IndexOf(cmds, cmds[i].ord) == i
  {
  }

  lemma AppendKeeps(m: Manager, r: Request, force: bool)
    requires ManagerOk(m)
    ensures ManagerOk(Append(m, r, force))
  {
    var m' := Append(m, r, force);
    if Accepts(Verdict(m, r, force)) {
      var n, c := |m.cmds|, m'.cmds[|m.cmds|];
      assert m'.cmds == m.cmds + [c];
      forall i | 0 <= i < |m'.cmds| ensures CmdOk(m', m'.cmds[i]) && (i < n ==> m'.cmds[i].ord < c.ord) {
        if i < n { assert CmdOk(m, m.cmds[i]); }
      }
      if !c.waitPush {
        forall i | 0 <= i < n ensures !m.cmds[i].Waits() {
          assert !m.cmds[n - 1].Waits();
        }
      }
      assert PushedAfterFinished(m'.cmds);
    }
  }

  /** Replacing one command by a later stage of itself. */
  lemma PutKeeps(m: Manager, i: nat, c: Cmd, crashed: bool)
    requires ManagerOk(m) && i < |m.cmds|
    requires c.ord == m.cmds[i].ord && CmdOk(m, c)
    requires c.Waits() ==> m.cmds[i].Waits()
    requires !c.waitPush ==> !m.cmds[i].waitPush || i == 0
    ensures ManagerOk(m.(cmds := m.cmds[i := c], crashed := crashed))
  {
    var m' := m.(cmds := m.cmds[i := c], crashed := crashed);
    forall k | 0 <= k < |m'.cmds| ensures CmdOk(m', m'.cmds[k]) {
      assert CmdOk(m, m.cmds[k]);
    }
  }

  lemma UnlinkKeeps(m: Manager, ord: nat)
    requires ManagerOk(m) && Listed(m, ord)
    ensures ManagerOk(Unlink(m, ord))
  {
    var m' := Unlink(m, ord);
    forall k | 0 <= k < |m'.cmds| ensures CmdOk(m', m'.cmds[k]) {
      assert CmdOk(m, m'.cmds[k]);
    }
  }

  /** Dropping one element of an ordered list moves the others at most one place. */
  lemma IndexWithout(cmds: seq<Cmd>, i: nat, o: nat)
    requires i < |cmds| && Ascending(cmds)
    ensures var rest, j := cmds[..i] + cmds[i + 1..], IndexOf(cmds, o);
            && IndexOf(rest, o) == (if j == i then |rest| else if j < i then j else j - 1)
            && (j < |cmds| && j != i ==> rest[IndexOf(rest, o)] == cmds[j])
  {
    var rest, j := cmds[..i] + cmds[i + 1..], IndexOf(cmds, o);
    if j < |cmds| && j != i {
      IndexOfAt(rest, if j < i then j else j - 1);
    }
  }

  /** Unlinking forgets that command and no other. */
  lemma UnlinkMeaning(m: Manager, ord: nat, o: nat)
    requires Ascending(m.cmds) && Listed(m, ord)
    ensures !Listed(Unlink(m, ord), ord)
    ensures o != ord ==> (Listed(Unlink(m, ord), o) <==> Listed(m, o))
    ensures o != ord && Listed(m, o) ==> Get(Unlink(m, ord), o) == Get(m, o)
  {
    IndexWithout(m.cmds, IndexOf(m.cmds, ord), ord);
    IndexWithout(m.cmds, IndexOf(m.cmds, ord), o);
  }

  lemma StepKeepsInv(s: System, e: Event)
    requires Inv(s) && Enabled(s, e)
    ensures Inv(Apply(s, e))
  {
    match e
    case Enqueue(r, force) => AppendKeeps(s.m, r, force);
    case DirectSend(o) =>
      DirectIsPushed(s, o);
      SentKeeps(s, o);
    case DirectUnlink(o) => DirectUnlinkKeeps(s, o);
    case DirectTimeout(o) => ExpireKeeps(s, o);
    case WorkerClear => ClearKeeps(s);
    case WorkerSend => SentKeeps(s, s.worker.ord);
    case WorkerUnlink => UnlinkKeeps(s.m, s.worker.ord);
    case WorkerTimeout => ExpireKeeps(s, s.worker.ord);
    case Message(id, accepting) => MessageKeeps(s, id, accepting);
    case _ =>
  }

  /** Handing a command to the bus keeps the worker's claim, unless it was the
      worker that had yet to send it. */
  lemma SentKeeps(s: System, o: nat)
    requires Inv(s) && Listed(s.m, o) && !Get(s.m, o).waitPush
    ensures ManagerOk(Sent(s, o).m)
    ensures s.worker != Cleared(o) ==> WorkerOk(Sent(s, o))
    ensures s.worker == Cleared(o) ==> WorkerOk(Sent(s, o).(worker := Awaiting(o)))
  {
    var i := IndexOf(s.m.cmds, o);
    assert CmdOk(s.m, s.m.cmds[i]);
    PutKeeps(s.m, i, s.m.cmds[i].(sent := true), s.m.crashed);
  }

  lemma DirectIsPushed(s: System, o: nat)
    requires Inv(s) && DirectIs(s, o, false)
    ensures !Get(s.m, o).waitPush
  {
    assert CmdOk(s.m, Get(s.m, o));
  }

  lemma ClearKeeps(s: System)
    requires Inv(s) && Enabled(s, WorkerClear)
    ensures Inv(Apply(s, WorkerClear))
  {
    assert IndexOf(s.m.cmds, s.worker.ord) == 0 && CmdOk(s.m, s.m.cmds[0]);
    PutKeeps(s.m, 0, s.m.cmds[0].(waitPush := false), s.m.crashed);
  }

  lemma DirectUnlinkKeeps(s: System, o: nat)
    requires Inv(s) && Enabled(s, DirectUnlink(o))
    ensures Inv(Apply(s, DirectUnlink(o)))
  {
    UnlinkKeeps(s.m, o);
    assert CmdOk(s.m, Get(s.m, o));
  }

  lemma ExpireKeeps(s: System, o: nat)
    requires Inv(s) && Listed(s.m, o)
    ensures ManagerOk(Expire(s.m, o)) && WorkerOk(s.(m := Expire(s.m, o)))
  {
    var i := IndexOf(s.m.cmds, o);
    var c := s.m.cmds[i];
    assert CmdOk(s.m, c);
    PutKeeps(s.m, i, Expire(s.m, o).cmds[i], true);
  }

  lemma MessageKeeps(s: System, id: int, accepting: set<nat>)
    requires Inv(s)
    ensures ManagerOk(MsgInd(s.m, id, accepting)) && WorkerOk(s.(m := MsgInd(s.m, id, accepting)))
  {
    var i := FirstMatch(s.m.cmds, id, accepting);
    if i < |s.m.cmds| {
      assert CmdOk(s.m, s.m.cmds[i]);
      PutKeeps(s.m, i, Confirmed(s.m.cmds[i]), s.m.crashed);
    }
  }

  /** Every reachable state satisfies the invariant, whatever messages arrive. */
  lemma {:induction false} RunKeepsInv(s: System, es: seq<Event>)
    requires Inv(s) && Run(s, es)
    ensures Inv(Final(s, es))
    decreases |es|
  {
    if es != [] {
      StepKeepsInv(s, es[0]);
      RunKeepsInv(Apply(s, es[0]), es[1..]);
    }
  }

  /** At most one listed command is pushed and unconfirmed; all before it are
      finished and all after it are still waiting to be pushed; the counter is the
      list length and never exceeds the limit. */
  lemma OneInFlight(es: seq<Event>, i: nat, j: nat)
    requires Run(INITIAL, es)
    requires i < |Final(INITIAL, es).m.cmds| && j < |Final(INITIAL, es).m.cmds|
    requires Final(INITIAL, es).m.cmds[i].InFlight()
    ensures Final(INITIAL, es).m.cmds[j].InFlight() ==> i == j
    ensures j < i ==> !Final(INITIAL, es).m.cmds[j].Waits()
    ensures i < j ==> Final(INITIAL, es).m.cmds[j].waitPush
    ensures Final(INITIAL, es).m.queueSz == |Final(INITIAL, es).m.cmds| <= MAX_QUEUED
  {
    RunKeepsInv(INITIAL, es);
  }

  /** A confirmation for the in-flight command reaches that command and no other,
      even when deferred commands with the same `reqid` already carry WAIT_CFM. */
  lemma ConfirmationHitsInFlight(s: System, id: int, accepting: set<nat>, i: nat)
    requires Inv(s) && i < |s.m.cmds| && s.m.cmds[i].InFlight()
    requires Matches(s.m.cmds[i], id, accepting)
    ensures FirstMatch(s.m.cmds, id, accepting) == i
    ensures MsgInd(s.m, id, accepting).cmds == s.m.cmds[i := Confirmed(s.m.cmds[i])]
    ensures Confirmed(s.m.cmds[i]).completed && !Confirmed(s.m.cmds[i]).waitCfm
  {
    FirstMatchAt(s.m.cmds, id, accepting, i);
  }

  // ---------------------------------------------------------------------------
  // What callers see
  // ---------------------------------------------------------------------------

  /** A caller pushes itself only if nobody waits: the last command tells for all. */
  lemma NoneWaits(cmds: seq<Cmd>)
    requires PushedAfterFinished(cmds) && cmds != [] && !cmds[|cmds| - 1].Waits()
    ensures forall i :: 0 <= i < |cmds| ==> !cmds[i].waitPush && !cmds[i].waitCfm
  {
    forall i | 0 <= i < |cmds| ensures !cmds[i].waitPush && !cmds[i].waitCfm {
      assert !cmds[i].Waits();
    }
  }

  /** The three answers to an enqueue, in terms of the list: with no free place or after a
      crash nothing changes; otherwise one more command is listed, last, and its caller is
      told to push it exactly when nothing forces it to wait. */
  lemma EnqueueMeaning(s: System, r: Request, force: bool)
    requires ManagerOk(s.m) && Enabled(s, Enqueue(r, force))
    ensures var m, m' := s.m, Apply(s, Enqueue(r, force)).m;
            if m.crashed || |m.cmds| == 16 then m' == m
            else
              && |m'.cmds| == |m.cmds| + 1 && m'.cmds == m.cmds + [m'.cmds[|m.cmds|]] && m'.accepted == m.accepted + 1
              && m'.crashed == m.crashed && IsNew(m, m'.cmds[|m.cmds|], r)
              && (m'.cmds[|m.cmds|].direct <==>
                    !force && !r.trafficInd && forall i :: 0 <= i < |m.cmds| ==> !m.cmds[i].waitPush && !m.cmds[i].waitCfm)
  {
    if s.m.cmds != [] && !s.m.cmds[|s.m.cmds| - 1].Waits() {
      NoneWaits(s.m.cmds);
    }
  }

  predicate IsNew(m: Manager, c: Cmd, r: Request) {
    && c.reqid == r.reqid && c.tkn == m.nextTkn && c.waitCfm && c.waited
    && !c.done && !c.completed && !c.sent && c.waitPush == !c.direct
  }

  /** A message changes nothing but the first command that expects its id, still awaits a
      confirmation and accepts it, and that one is finished successfully. */
  lemma MessageMeaning(s: System, id: int, accepting: set<nat>, i: nat)
    requires i < |s.m.cmds|
    ensures var cs, m' := s.m.cmds, Apply(s, Message(id, accepting)).m;
            && |m'.cmds| == |cs| && m' == s.m.(cmds := m'.cmds)
            && (if (cs[i].reqid == id && cs[i].waitCfm && cs[i].ord in accepting)
                   && (forall k :: 0 <= k < i ==> cs[k].reqid != id || !cs[k].waitCfm || cs[k].ord !in accepting)
                then m'.cmds[i] == cs[i].(waitCfm := false, done := true, completed := true, result := Success)
                else m'.cmds[i] == cs[i])
  {
    if Matches(s.m.cmds[i], id, accepting) && forall k :: 0 <= k < i ==> !Matches(s.m.cmds[k], id, accepting) {
      FirstMatchAt(s.m.cmds, id, accepting, i);
    }
  }

  predicate IsTimeout(e: Event) { e.DirectTimeout? || e.WorkerTimeout? }

  /** The command whose wait ran out. */
  function TimedOutOrd(s: System, e: Event): nat
    requires Enabled(s, e) && IsTimeout(e)
  {
    if e.DirectTimeout? then e.ord else s.worker.ord
  }

  /** A time-out, and nothing else, crashes the manager. */
  lemma CrashedIff(s: System, e: Event)
    requires Enabled(s, e)
    ensures Apply(s, e).m.crashed <==> s.m.crashed || IsTimeout(e)
  {
  }

  /** The command that timed out stays listed, done and no longer waited on; if it was
      still to be confirmed it has failed, and if it was done before it keeps its result.
      No other command changes. */
  lemma TimeoutMeaning(s: System, e: Event)
    requires Inv(s) && Enabled(s, e) && IsTimeout(e)
    ensures var o, s' := TimedOutOrd(s, e), Apply(s, e);
            && Listed(s.m, o) && Listed(s'.m, o) && |s'.m.cmds| == |s.m.cmds| && s'.m.queueSz == s.m.queueSz
            && s'.log == s.log && s'.m.accepted == s.m.accepted
            && (forall i :: 0 <= i < |s.m.cmds| && s.m.cmds[i].ord != o ==> s'.m.cmds[i] == s.m.cmds[i])
            && var c, c' := Get(s.m, o), Get(s'.m, o);
               && c'.done && !c'.waited && c'.waitPush == c.waitPush && c'.waitCfm == c.waitCfm
               && (!c.done && c.waitCfm ==> c'.result == TimedOut && c'.completed == c.completed)
               && (c.done ==> c'.result == c.result && c'.completed == c.completed)
  {
    var o := TimedOutOrd(s, e);
    var i := IndexOf(s.m.cmds, o);
    StepKeepsInv(s, e);
    assert Apply(s, e).m.cmds[i].ord == o;
    IndexOfAt(Apply(s, e).m.cmds, i);
  }

  lemma {:induction false} CrashedStays(s: System, es: seq<Event>)
    requires Run(s, es) && s.m.crashed
    ensures Final(s, es).m.crashed && Final(s, es).m.accepted == s.m.accepted
    decreases |es|
  {
    if es != [] {
      CrashedIff(s, es[0]);
      CrashedAcceptsNothing(s, es[0]);
      CrashedStays(Apply(s, es[0]), es[1..]);
    }
  }

  lemma CrashedAcceptsNothing(s: System, e: Event)
    requires Enabled(s, e) && s.m.crashed
    ensures Apply(s, e).m.accepted == s.m.accepted
  {
  }

  /** Once a wait has run out every later enqueue is refused, and nothing more is accepted,
      however the run goes on. */
  lemma TimeoutRefusesLater(s: System, e: Event, es: seq<Event>, r: Request, force: bool)
    requires Enabled(s, e) && IsTimeout(e) && Run(s, [e] + es)
    ensures Verdict(Final(s, [e] + es).m, r, force) == BrokenPipe
    ensures Final(s, [e] + es).m.accepted == s.m.accepted
  {
    assert ([e] + es)[1..] == es;
    CrashedIff(s, e);
    TimeoutAccepts(s, e);
    CrashedStays(Apply(s, e), es);
  }

  lemma TimeoutAccepts(s: System, e: Event)
    requires Enabled(s, e) && IsTimeout(e)
    ensures Apply(s, e).m.accepted == s.m.accepted
  {
  }

  // ---------------------------------------------------------------------------
  // Wake-ups
  // ---------------------------------------------------------------------------

  /** A head that waits to be pushed is somebody's business: work is queued, the
      worker will rescan, or a caller has yet to issue a wake that will take effect. */
  ghost predicate Covered(s: System) {
    s.m.cmds != [] && s.m.cmds[0].waitPush ==>
      s.workQueued || !s.worker.Idle? || s.wakers > 0 || s.forced > 0
      || (s.tests > 0 && s.m.queueSz <= 1)
  }

  /** The one step that loses a wake-up: `cmd_mgr_queue` appends behind a command
      whose own wake test, taken after the lock was dropped, is all that would have
      started the worker. */
  predicate Overtakes(s: System, e: Event) {
    && e.Enqueue? && !e.force
    && Accepts(Verdict(s.m, e.r, e.force))
    && s.m.cmds != [] && s.m.cmds[0].waitPush
    && !s.workQueued && s.worker.Idle? && s.wakers == 0 && s.forced == 0
  }

  /** Exactly the overtaking appends uncover a waiting head. */
  lemma StepKeepsCovered(s: System, e: Event)
    requires Inv(s) && Covered(s) && Enabled(s, e)
    ensures Covered(Apply(s, e)) <==> !Overtakes(s, e)
  {
    if e.DirectUnlink? {
      assert CmdOk(s.m, Get(s.m, e.ord));
    }
    if e.DirectSend? || e.DirectTimeout? {
      assert CmdOk(s.m, s.m.cmds[0]);
    }
  }

  /** No run without an overtaking append ever loses a wake-up. */
  ghost predicate NeverOvertakes(s: System, es: seq<Event>)
    requires Run(s, es)
    decreases |es|
  {
    es == [] || (!Overtakes(s, es[0]) && NeverOvertakes(Apply(s, es[0]), es[1..]))
  }

  lemma {:induction false} NoLostWakeup(s: System, es: seq<Event>)
    requires Inv(s) && Covered(s) && Run(s, es) && NeverOvertakes(s, es)
    ensures Covered(Final(s, es))
    decreases |es|
  {
    if es != [] {
      StepKeepsInv(s, es[0]);
      StepKeepsCovered(s, es[0]);
      NoLostWakeup(Apply(s, es[0]), es[1..]);
    }
  }

  /** Append and wake test as one step: nobody enqueues while a test is outstanding. */
  ghost predicate Serialised(s: System, es: seq<Event>)
    requires Run(s, es)
    decreases |es|
  {
    es == [] || ((es[0].Enqueue? ==> s.tests == 0) && Serialised(Apply(s, es[0]), es[1..]))
  }

  lemma {:induction false} SerialisedNeverOvertakes(s: System, es: seq<Event>)
    requires Inv(s) && Covered(s) && Run(s, es) && Serialised(s, es)
    ensures NeverOvertakes(s, es)
    decreases |es|
  {
    if es != [] {
      StepKeepsInv(s, es[0]);
      StepKeepsCovered(s, es[0]);
      SerialisedNeverOvertakes(Apply(s, es[0]), es[1..]);
    }
  }

  /** With the enqueue and its test serialised, a system in which no wake is under
      way and the worker sleeps never has a head waiting to be pushed. */
  lemma QuietHeadIsPushed(es: seq<Event>)
    requires Run(INITIAL, es) && Serialised(INITIAL, es)
    requires var s := Final(INITIAL, es);
             s.worker.Idle? && !s.workQueued && s.tests == 0 && s.forced == 0 && s.wakers == 0
    ensures var s := Final(INITIAL, es); s.m.cmds == [] || !s.m.cmds[0].waitPush
  {
    SerialisedNeverOvertakes(INITIAL, es);
    NoLostWakeup(INITIAL, es);
  }

  /** The source's own granularity does lose one: a traffic indication goes to the
      empty list, a second caller appends before the first runs its test, and both
      tests then read a queue size of two. */
  lemma WakeupCanBeLost(a: Request, b: Request)
    requires a.trafficInd && !b.wantsReply
    ensures var es := [Enqueue(a, false), Enqueue(b, false), WakeTest, WakeTest];
            && Run(INITIAL, es)
            && var s := Final(INITIAL, es);
               && s.m.cmds != [] && s.m.cmds[0].waitPush
               && s.worker.Idle? && !s.workQueued && s.tests == 0 && s.forced == 0 && s.wakers == 0
  {
    var e0, e1 := Enqueue(a, false), Enqueue(b, false);
    var s1 := Apply(INITIAL, e0);
    var s2 := Apply(s1, e1);
    var s3 := Apply(s2, WakeTest);
    RunOne(s3, WakeTest);
    RunCons(s2, WakeTest, [WakeTest]);
    RunCons(s1, e1, [WakeTest, WakeTest]);
    RunCons(INITIAL, e0, [e1, WakeTest, WakeTest]);
  }

  /** A lost wake-up stays lost: from an uncovered state nothing but a forced enqueue
      brings the worker back, and nothing more is handed to the bus. */
  lemma LostStep(s: System, e: Event)
    requires Inv(s) && !Covered(s) && Enabled(s, e) && !(e.Enqueue? && e.force)
    ensures !Covered(Apply(s, e)) && Apply(s, e).log == s.log
  {
  }

  lemma {:induction false} LostStaysLost(s: System, es: seq<Event>)
    requires Inv(s) && !Covered(s) && Run(s, es)
    requires forall i :: 0 <= i < |es| ==> !(es[i].Enqueue? && es[i].force)
    ensures !Covered(Final(s, es)) && Final(s, es).log == s.log
    decreases |es|
  {
    if es != [] {
      StepKeepsInv(s, es[0]);
      LostStep(s, es[0]);
      LostStaysLost(Apply(s, es[0]), es[1..]);
    }
  }

  // ---------------------------------------------------------------------------
  // Push order
  // ---------------------------------------------------------------------------

  /** The log is 0, 1, 2, ...: the accepted commands, each once, in order. */
  ghost predicate Counts(log: seq<nat>) { forall k :: 0 <= k < |log| ==> log[k] == k }

  /** Moreover the commands not yet sent are the last `accepted - |log|` of the list. */
  ghost predicate InOrder(m: Manager, log: seq<nat>) {
    && |log| <= m.accepted
    && m.accepted - |log| <= |m.cmds|
    && Counts(log)
    && (forall i :: 0 <= i < |m.cmds| ==> InOrderAt(m, log, i))
  }

  ghost predicate InOrderAt(m: Manager, log: seq<nat>, i: nat)
    requires i < |m.cmds|
  {
    var unsent := m.accepted - |log|;
    if i < |m.cmds| - unsent then m.cmds[i].sent && m.cmds[i].ord < |log|
    else !m.cmds[i].sent && m.cmds[i].ord == m.accepted - (|m.cmds| - i)
  }

  /** The one step that breaks the order: a caller sends its command while the one before
      it in the list is still to be sent. */
  predicate Jumps(s: System, e: Event) {
    && e.DirectSend?
    && var i := IndexOf(s.m.cmds, e.ord);
       0 < i < |s.m.cmds| && !s.m.cmds[i - 1].sent
  }

  /** A command is the one the log expects exactly when it is the first unsent one. */
  lemma FirstUnsentIsNext(m: Manager, log: seq<nat>, i: nat)
    requires InOrder(m, log) && i < |m.cmds| && !m.cmds[i].sent
    ensures m.cmds[i].ord == |log| <==> i == 0 || m.cmds[i - 1].sent
    ensures m.cmds[i].ord == |log| ==> i == |m.cmds| - (m.accepted - |log|)
  {
    assert InOrderAt(m, log, i);
    if i > 0 { assert InOrderAt(m, log, i - 1); }
  }

  lemma SendKeepsOrderIff(s: System, o: nat)
    requires InOrder(s.m, s.log) && Listed(s.m, o) && !Get(s.m, o).sent
    ensures var i := IndexOf(s.m.cmds, o);
            && (InOrder(Sent(s, o).m, Sent(s, o).log) <==> i == 0 || s.m.cmds[i - 1].sent)
            && (Counts(Sent(s, o).log) <==> i == 0 || s.m.cmds[i - 1].sent)
  {
    var s', j := Sent(s, o), IndexOf(s.m.cmds, o);
    FirstUnsentIsNext(s.m, s.log, j);
    assert s'.log[|s.log|] == s.m.cmds[j].ord;
    if j == 0 || s.m.cmds[j - 1].sent {
      forall i | 0 <= i < |s'.m.cmds| ensures InOrderAt(s'.m, s'.log, i) {
        assert InOrderAt(s.m, s.log, i);
      }
    }
  }

  lemma UnlinkKeepsOrder(m: Manager, log: seq<nat>, o: nat)
    requires InOrder(m, log) && Listed(m, o) && Get(m, o).sent
    ensures InOrder(Unlink(m, o), log)
  {
    var m', j := Unlink(m, o), IndexOf(m.cmds, o);
    assert InOrderAt(m, log, j);
    forall i | 0 <= i < |m'.cmds| ensures InOrderAt(m', log, i) {
      assert InOrderAt(m, log, if i < j then i else i + 1);
    }
  }

  /** Steps that change neither the list nor what was sent, confirmations among them. */
  lemma SameOrder(m: Manager, m': Manager, log: seq<nat>)
    requires InOrder(m, log) && m'.accepted == m.accepted
    requires |m'.cmds| == |m.cmds|
    requires forall i :: 0 <= i < |m.cmds| ==> m'.cmds[i].ord == m.cmds[i].ord && m'.cmds[i].sent == m.cmds[i].sent
    ensures InOrder(m', log)
  {
    forall i | 0 <= i < |m'.cmds| ensures InOrderAt(m', log, i) {
      assert InOrderAt(m, log, i);
    }
  }

  lemma AppendKeepsOrder(m: Manager, log: seq<nat>, r: Request, force: bool)
    requires InOrder(m, log)
    ensures InOrder(Append(m, r, force), log)
  {
    var m' := Append(m, r, force);
    forall i | 0 <= i < |m'.cmds| ensures InOrderAt(m', log, i) {
      if i < |m.cmds| { assert InOrderAt(m, log, i); }
    }
  }

  /** Exactly the jumping sends break the order, and they do so in the log. */
  lemma StepKeepsOrder(s: System, e: Event)
    requires Inv(s) && InOrder(s.m, s.log) && Enabled(s, e)
    ensures InOrder(Apply(s, e).m, Apply(s, e).log) <==> !Jumps(s, e)
    ensures Counts(Apply(s, e).log) <==> !Jumps(s, e)
  {
    match e
    case Enqueue(r, force) => AppendKeepsOrder(s.m, s.log, r, force);
    case DirectSend(o) => SendKeepsOrderIff(s, o);
    case WorkerSend => SendKeepsOrderIff(s, s.worker.ord);
    case DirectUnlink(o) => UnlinkKeepsOrder(s.m, s.log, o);
    case WorkerUnlink => UnlinkKeepsOrder(s.m, s.log, s.worker.ord);
    case _ =>
      FlagStep(s, e);
      SameOrder(s.m, Apply(s, e).m, s.log);
  }

  /** The other steps touch flags only, and hand nothing to the bus. */
  lemma FlagStep(s: System, e: Event)
    requires Inv(s) && Enabled(s, e)
    requires !e.Enqueue? && !e.DirectSend? && !e.WorkerSend? && !e.DirectUnlink? && !e.WorkerUnlink?
    ensures var s' := Apply(s, e);
            && s'.log == s.log && s'.m.accepted == s.m.accepted && |s'.m.cmds| == |s.m.cmds|
            && (forall i :: 0 <= i < |s.m.cmds| ==>
                  s'.m.cmds[i].ord == s.m.cmds[i].ord && s'.m.cmds[i].sent == s.m.cmds[i].sent
                  && (i > 0 && s.m.cmds[i].waitPush ==> s'.m.cmds[i].waitPush))
  {
    if e.WorkerClear? { assert IndexOf(s.m.cmds, s.worker.ord) == 0; }
  }

  ghost predicate NeverJumps(s: System, es: seq<Event>)
    requires Run(s, es)
    decreases |es|
  {
    es == [] || (!Jumps(s, es[0]) && NeverJumps(Apply(s, es[0]), es[1..]))
  }

  /** What was handed to the bus stays handed to the bus. */
  lemma {:induction false} LogGrows(s: System, es: seq<Event>)
    requires Run(s, es)
    ensures s.log <= Final(s, es).log
    decreases |es|
  {
    if es != [] {
      StepLog(s, es[0]);
      LogGrows(Apply(s, es[0]), es[1..]);
    }
  }

  lemma StepLog(s: System, e: Event)
    requires Enabled(s, e)
    ensures s.log <= Apply(s, e).log
  {
  }

  /** Commands reach the bus in token order, each accepted command at most once and with
      no gap, over a whole run if and only if no send in it jumps. */
  lemma {:induction false} OrderKeptIff(s: System, es: seq<Event>)
    requires Inv(s) && InOrder(s.m, s.log) && Run(s, es)
    ensures Counts(Final(s, es).log) <==> NeverJumps(s, es)
    ensures NeverJumps(s, es) ==> InOrder(Final(s, es).m, Final(s, es).log)
    decreases |es|
  {
    if es != [] {
      var s' := Apply(s, es[0]);
      StepKeepsInv(s, es[0]);
      StepKeepsOrder(s, es[0]);
      if Jumps(s, es[0]) {
        LogGrows(s', es[1..]);
        var k :| 0 <= k < |s'.log| && s'.log[k] != k;
        assert Final(s', es[1..]).log[k] != k;
      } else {
        OrderKeptIff(s', es[1..]);
      }
    }
  }

  // What a caller can check before the order is at stake

  /** A command that its caller may send stands right behind one still to be sent. */
  ghost predicate Exposed(m: Manager) {
    exists i :: 0 < i < |m.cmds| && ExposedAt(m, i)
  }

  predicate ExposedAt(m: Manager, i: nat)
    requires 0 < i < |m.cmds|
  {
    !m.cmds[i].waitPush && !m.cmds[i].sent && !m.cmds[i - 1].sent
  }

  /** A caller is told to push its command itself although the last one in the list has
      not been sent. */
  predicate PushesPast(s: System, e: Event) {
    && e.Enqueue? && Verdict(s.m, e.r, e.force).PushNow?
    && s.m.cmds != [] && !s.m.cmds[|s.m.cmds| - 1].sent
  }

  /** Only an exposed command can jump. */
  lemma JumpsAreExposed(s: System, e: Event)
    requires Inv(s) && Enabled(s, e) && Jumps(s, e)
    ensures Exposed(s.m)
  {
    DirectIsPushed(s, e.ord);
    assert ExposedAt(s.m, IndexOf(s.m.cmds, e.ord));
  }

  /** Steps that keep the list and take no `sent` away expose nothing, unless they push. */
  lemma SameExposure(m: Manager, m': Manager)
    requires |m'.cmds| == |m.cmds| && !Exposed(m)
    requires forall i :: 0 <= i < |m.cmds| ==> m.cmds[i].sent ==> m'.cmds[i].sent
    requires forall i :: 0 < i < |m.cmds| && m.cmds[i].waitPush ==> m'.cmds[i].waitPush
    ensures !Exposed(m')
  {
    forall i | 0 < i < |m'.cmds| ensures !ExposedAt(m', i) {
      assert !ExposedAt(m, i);
    }
  }

  lemma UnlinkExposes(m: Manager, log: seq<nat>, o: nat)
    requires InOrder(m, log) && !Exposed(m) && Listed(m, o) && Get(m, o).sent
    ensures !Exposed(Unlink(m, o))
  {
    var m', j := Unlink(m, o), IndexOf(m.cmds, o);
    assert InOrderAt(m, log, j);
    forall i | 0 < i < |m'.cmds| ensures !ExposedAt(m', i) {
      if i == j {
        assert InOrderAt(m, log, j - 1);
      } else {
        assert !ExposedAt(m, if i < j then i else i + 1);
      }
    }
  }

  lemma AppendExposesIff(m: Manager, r: Request, force: bool)
    requires !Exposed(m)
    ensures Exposed(Append(m, r, force)) <==>
              Verdict(m, r, force).PushNow? && m.cmds != [] && !m.cmds[|m.cmds| - 1].sent
  {
    var m', n := Append(m, r, force), |m.cmds|;
    forall i | 0 < i < |m'.cmds| && i < n ensures !ExposedAt(m', i) {
      assert !ExposedAt(m, i);
    }
    if Verdict(m, r, force).PushNow? && n > 0 && !m.cmds[n - 1].sent {
      assert ExposedAt(m', n);
    }
  }

  /** Exactly the appends that push past an unsent command expose one. */
  lemma StepExposesIff(s: System, e: Event)
    requires Inv(s) && InOrder(s.m, s.log) && !Exposed(s.m) && Enabled(s, e)
    ensures Exposed(Apply(s, e).m) <==> PushesPast(s, e)
  {
    match e
    case Enqueue(r, force) => AppendExposesIff(s.m, r, force);
    case DirectUnlink(o) => UnlinkExposes(s.m, s.log, o);
    case WorkerUnlink => UnlinkExposes(s.m, s.log, s.worker.ord);
    case DirectSend(_) => SameExposure(s.m, Apply(s, e).m);
    case WorkerSend => SameExposure(s.m, Apply(s, e).m);
    case _ =>
      FlagStep(s, e);
      SameExposure(s.m, Apply(s, e).m);
  }

  ghost predicate NeverPushesPast(s: System, es: seq<Event>)
    requires Run(s, es)
    decreases |es|
  {
    es == [] || (!PushesPast(s, es[0]) && NeverPushesPast(Apply(s, es[0]), es[1..]))
  }

  ghost predicate NeverExposed(s: System, es: seq<Event>)
    requires Run(s, es)
    decreases |es|
  {
    !Exposed(s.m) && (es == [] || NeverExposed(Apply(s, es[0]), es[1..]))
  }

  /** A run never exposes a command if and only if no append in it pushes past an unsent
      one; and then no send jumps. */
  lemma {:induction false} ExposureIff(s: System, es: seq<Event>)
    requires Inv(s) && InOrder(s.m, s.log) && !Exposed(s.m) && Run(s, es)
    ensures NeverExposed(s, es) <==> NeverPushesPast(s, es)
    ensures NeverPushesPast(s, es) ==> NeverJumps(s, es)
    decreases |es|
  {
    if es != [] {
      var s' := Apply(s, es[0]);
      StepKeepsInv(s, es[0]);
      if Jumps(s, es[0]) {
        JumpsAreExposed(s, es[0]);
      }
      StepKeepsOrder(s, es[0]);
      StepExposesIff(s, es[0]);
      if !Exposed(s'.m) {
        ExposureIff(s', es[1..]);
      }
    }
  }

  /** So without such an append commands reach the bus in token order, whether pushed by
      their caller or by the worker, and a listed command has been sent exactly when its
      place in that order has been reached. */
  lemma PushedInTokenOrder(es: seq<Event>)
    requires Run(INITIAL, es) && NeverPushesPast(INITIAL, es)
    ensures var s := Final(INITIAL, es);
            && |s.log| <= s.m.accepted && Counts(s.log)
            && (forall i :: 0 <= i < |s.m.cmds| ==> (s.m.cmds[i].sent <==> s.m.cmds[i].ord < |s.log|))
  {
    ExposureIff(INITIAL, es);
    OrderKeptIff(INITIAL, es);
    var s := Final(INITIAL, es);
    forall i | 0 <= i < |s.m.cmds| ensures s.m.cmds[i].sent <==> s.m.cmds[i].ord < |s.log| {
      assert InOrderAt(s.m, s.log, i);
    }
  }

  // What the firmware can do to keep it

  /** A message is taken by a command that has not been sent yet. */
  predicate Premature(s: System, e: Event) {
    && e.Message?
    && var i := FirstMatch(s.m.cmds, e.id, e.accepting);
       i < |s.m.cmds| && !s.m.cmds[i].sent
  }

  /** Every command still to be sent awaits its confirmation, so nobody pushes past it. */
  ghost predicate Awaited(m: Manager) {
    forall i :: 0 <= i < |m.cmds| && !m.cmds[i].sent ==> m.cmds[i].waitCfm
  }

  lemma AwaitedStopsPast(s: System, e: Event)
    requires Awaited(s.m)
    ensures !PushesPast(s, e)
  {
  }

  lemma MessageAwaitedIff(s: System, e: Event)
    requires Awaited(s.m) && e.Message?
    ensures Awaited(MsgInd(s.m, e.id, e.accepting)) <==> !Premature(s, e)
  {
    var i, m' := FirstMatch(s.m.cmds, e.id, e.accepting), MsgInd(s.m, e.id, e.accepting);
    if i < |s.m.cmds| {
      assert m'.cmds == s.m.cmds[i := Confirmed(s.m.cmds[i])];
      assert !m'.cmds[i].waitCfm && m'.cmds[i].sent == s.m.cmds[i].sent;
    }
  }

  lemma PutAwaited(m: Manager, o: nat, c: Cmd)
    requires Awaited(m) && Listed(m, o) && (c.sent || c.waitCfm)
    ensures Awaited(Put(m, o, c))
  {
  }

  lemma ExpireAwaited(m: Manager, o: nat)
    requires Awaited(m) && Listed(m, o)
    ensures Awaited(Expire(m, o))
  {
  }

  lemma UnlinkAwaited(m: Manager, o: nat)
    requires Awaited(m) && Listed(m, o)
    ensures Awaited(Unlink(m, o))
  {
  }

  /** Exactly the premature confirmations end that. */
  lemma StepKeepsAwaited(s: System, e: Event)
    requires Awaited(s.m) && Enabled(s, e)
    ensures Awaited(Apply(s, e).m) <==> !Premature(s, e)
  {
    match e
    case DirectSend(o) => PutAwaited(s.m, o, Get(s.m, o).(sent := true));
    case DirectUnlink(o) => UnlinkAwaited(s.m, o);
    case DirectTimeout(o) => ExpireAwaited(s.m, o);
    case WorkerClear => PutAwaited(s.m, s.worker.ord, Get(s.m, s.worker.ord).(waitPush := false));
    case WorkerSend => PutAwaited(s.m, s.worker.ord, Get(s.m, s.worker.ord).(sent := true));
    case WorkerUnlink => UnlinkAwaited(s.m, s.worker.ord);
    case WorkerTimeout => ExpireAwaited(s.m, s.worker.ord);
    case Message(_, _) => MessageAwaitedIff(s, e);
    case _ =>
  }

  ghost predicate NeverPremature(s: System, es: seq<Event>)
    requires Run(s, es)
    decreases |es|
  {
    es == [] || (!Premature(s, es[0]) && NeverPremature(Apply(s, es[0]), es[1..]))
  }

  /** Firmware that confirms only what it was sent keeps every append from pushing past,
      and so keeps the order. */
  lemma {:induction false} PromptFirmwareKeepsOrder(s: System, es: seq<Event>)
    requires Awaited(s.m) && Run(s, es) && NeverPremature(s, es)
    ensures NeverPushesPast(s, es)
    decreases |es|
  {
    if es != [] {
      StepKeepsAwaited(s, es[0]);
      AwaitedStopsPast(s, es[0]);
      PromptFirmwareKeepsOrder(Apply(s, es[0]), es[1..]);
    }
  }

  lemma ConfirmedEarly(a: Request)
    requires !a.trafficInd
    ensures var s := Apply(Apply(INITIAL, Enqueue(a, false)), Message(a.reqid, {0}));
            s == INITIAL.(m := Manager([Confirmed(NewCmd(INITIAL.m, a, false))], 1, 1, 1, false))
  {
    var c := NewCmd(INITIAL.m, a, false);
    var s1 := Apply(INITIAL, Enqueue(a, false));
    assert s1.m.cmds == [c];
    FirstMatchAt(s1.m.cmds, a.reqid, {0}, 0);
    assert s1.m.cmds[0 := Confirmed(c)] == [Confirmed(c)];
  }

  /** From there a second command is pushed past the first, and both are sent, the second
      first. */
  lemma SecondOvertakes(s: System, b: Request)
    requires |s.m.cmds| == 1 && s.m.queueSz == 1 && s.m.accepted == 1 && !s.m.crashed && s.log == []
    requires var c := s.m.cmds[0]; c.ord == 0 && c.direct && c.waited && !c.sent && !c.Waits()
    requires !b.trafficInd && !b.wantsReply
    ensures var es := [Enqueue(b, false), DirectSend(1), DirectSend(0)]; Run(s, es) && Final(s, es).log == [1, 0]
  {
    var c0, c1 := s.m.cmds[0], NewCmd(s.m, b, false);
    var s1 := Apply(s, Enqueue(b, false));
    assert s1.m.cmds == [c0, c1];
    IndexOfAt(s1.m.cmds, 1);
    var s2 := Apply(s1, DirectSend(1));
    assert s2.m.cmds == [c0, c1.(sent := true)];
    IndexOfAt(s2.m.cmds, 0);
    RunOne(s2, DirectSend(0));
    RunCons(s1, DirectSend(1), [DirectSend(0)]);
    RunCons(s, Enqueue(b, false), [DirectSend(1), DirectSend(0)]);
  }

  /** The order can be turned round: the first command is confirmed before its caller
      sends it, so the second is told to push past it, and jumps. */
  lemma TokenOrderCanFail(a: Request, b: Request)
    requires !a.trafficInd && !b.trafficInd && !b.wantsReply
    ensures var es := [Enqueue(a, false), Message(a.reqid, {0}), Enqueue(b, false), DirectSend(1), DirectSend(0)];
            Run(INITIAL, es) && Final(INITIAL, es).log == [1, 0]
  {
    var e0, e1 := Enqueue(a, false), Message(a.reqid, {0});
    var rest := [Enqueue(b, false), DirectSend(1), DirectSend(0)];
    ConfirmedEarly(a);
    var s1 := Apply(INITIAL, e0);
    SecondOvertakes(Apply(s1, e1), b);
    RunCons(s1, e1, rest);
    RunCons(INITIAL, e0, [e1] + rest);
    assert [e0] + ([e1] + rest) == [e0, e1, Enqueue(b, false), DirectSend(1), DirectSend(0)];
  }
}
