/** The priority frame queue (aicwf_txrxif.c): one FIFO per class, a shared count,
    and a hint `hiPrio` above which every class is empty. */
module FrameQueue {
  import opened Machine

  type Frame = int

  // ---------------------------------------------------------------------------
  // The queue as a value
  // ---------------------------------------------------------------------------

  function Total(qs: seq<seq<Frame>>): nat {
    if qs == [] then 0 else Total(qs[..|qs| - 1]) + |qs[|qs| - 1]|
  }

  /** Occurrences of a frame in a sequence, and over all classes. */
  function Occurs(s: seq<Frame>, f: Frame): nat { multiset(s)[f] }

  function Count(qs: seq<seq<Frame>>, f: Frame): nat {
    if qs == [] then 0 else Count(qs[..|qs| - 1], f) + Occurs(qs[|qs| - 1], f)
  }

  lemma {:induction false} TotalUpdate(qs: seq<seq<Frame>>, i: nat, q: seq<Frame>)
    requires i < |qs|
    ensures Total(qs[i := q]) == Total(qs) - |qs[i]| + |q|
    decreases |qs|
  {
    var n := |qs| - 1;
    if i < n {
      assert qs[i := q][..n] == qs[..n][i := q];
      TotalUpdate(qs[..n], i, q);
    } else {
      assert qs[i := q][..n] == qs[..n];
    }
  }

  lemma {:induction false} CountUpdate(qs: seq<seq<Frame>>, i: nat, q: seq<Frame>, f: Frame)
    requires i < |qs|
    ensures Count(qs[i := q], f) == Count(qs, f) - Occurs(qs[i], f) + Occurs(q, f)
    decreases |qs|
  {
    var n := |qs| - 1;
    if i < n {
      assert qs[i := q][..n] == qs[..n][i := q];
      CountUpdate(qs[..n], i, q, f);
    } else {
      assert qs[i := q][..n] == qs[..n];
    }
  }

  lemma {:induction false} TotalZero(qs: seq<seq<Frame>>)
    ensures Total(qs) == 0 <==> forall p :: 0 <= p < |qs| ==> qs[p] == []
    decreases |qs|
  {
    if qs != [] {
      var n := |qs| - 1;
      TotalZero(qs[..n]);
      assert forall p :: 0 <= p < n ==> qs[..n][p] == qs[p];
    }
  }

  /** Class `h` is the highest with a frame. */
  predicate Highest(qs: seq<seq<Frame>>, h: int) {
    0 <= h < |qs| && qs[h] != [] && forall p :: h < p < |qs| ==> qs[p] == []
  }

  /** Class `l` is the lowest with a frame. */
  predicate Lowest(qs: seq<seq<Frame>>, l: int) {
    0 <= l < |qs| && qs[l] != [] && forall p :: 0 <= p < l ==> qs[p] == []
  }

  /** A full queue admits a frame only over the newest frame of a strictly lower
      class, and into that class. */
  ghost predicate Admits(qs: seq<seq<Frame>>, qmax: nat, prio: nat) {
    Total(qs) < qmax || exists l :: Lowest(qs, l) && l < prio
  }

  /** A frame is admitted exactly when there is room or some lower class has a frame. */
  lemma AdmitsIff(qs: seq<seq<Frame>>, qmax: nat, prio: nat)
    requires prio <= |qs|
    ensures Admits(qs, qmax, prio) <==> Total(qs) < qmax || exists p :: 0 <= p < prio && qs[p] != []
  {
    if p :| 0 <= p < prio && qs[p] != [] {
      var l := LowestBelow(qs, p);
    }
  }

  lemma {:induction false} LowestBelow(qs: seq<seq<Frame>>, p: nat) returns (l: nat)
    requires p < |qs| && qs[p] != []
    ensures l <= p && Lowest(qs, l)
    decreases p
  {
    if q :| 0 <= q < p && qs[q] != [] {
      l := LowestBelow(qs, q);
    } else {
      l := p;
    }
  }

  // ---------------------------------------------------------------------------
  // What a call does
  // ---------------------------------------------------------------------------

  datatype Op = Enq(f: Frame, prio: nat) | Deq | FlushAll

  /** `inn`, `out` and `freed` list the frames admitted, handed out and freed. */
  datatype Ledger = Ledger(qs: seq<seq<Frame>>, inn: seq<Frame>, out: seq<Frame>, freed: seq<Frame>)

  ghost predicate Step(s: Ledger, qmax: nat, op: Op, s': Ledger) {
    match op
    case Deq =>
      if Total(s.qs) == 0 then s' == s
      else exists h :: Highest(s.qs, h) && s' == Taken(s, h)
    case FlushAll => s' == Flushed(s)
    case Enq(f, prio) =>
      if prio >= |s.qs| || !Admits(s.qs, qmax, prio) then s' == s
      else if Total(s.qs) < qmax then s' == Added(s, prio, f)
      else exists l :: Lowest(s.qs, l) && l < prio && s' == Replaced(s, l, f)
  }

  function Taken(s: Ledger, h: nat): Ledger
    requires h < |s.qs| && s.qs[h] != []
  {
    s.(qs := s.qs[h := s.qs[h][1..]], out := s.out + [s.qs[h][0]])
  }

  function Added(s: Ledger, p: nat, f: Frame): Ledger
    requires p < |s.qs|
  {
    s.(qs := s.qs[p := s.qs[p] + [f]], inn := s.inn + [f])
  }

  function Flat(qs: seq<seq<Frame>>): seq<Frame> {
    if qs == [] then [] else Flat(qs[..|qs| - 1]) + qs[|qs| - 1]
  }

  function Flushed(s: Ledger): Ledger {
    s.(qs := seq(|s.qs|, _ => []), freed := s.freed + Flat(s.qs))
  }

  function Replaced(s: Ledger, l: nat, f: Frame): Ledger
    requires l < |s.qs| && s.qs[l] != []
  {
    var q := s.qs[l];
    s.(qs := s.qs[l := q[..|q| - 1] + [f]], inn := s.inn + [f], freed := s.freed + [q[|q| - 1]])
  }

  /** Enqueuing into a full queue: with no frame in a lower class nothing changes; else the
      frame takes the place of the newest of the lowest non-empty class, which is freed. */
  lemma EvictionMeaning(s: Ledger, qmax: nat, f: Frame, prio: nat, s': Ledger)
    requires Step(s, qmax, Enq(f, prio), s') && prio < |s.qs| && Total(s.qs) >= qmax
    ensures (forall p :: 0 <= p < prio ==> s.qs[p] == []) ==> s' == s
    ensures (exists p :: 0 <= p < prio && s.qs[p] != []) ==>
              exists l :: 0 <= l < prio && s.qs[l] != [] && (forall p :: 0 <= p < l ==> s.qs[p] == [])
                          && s'.qs == s.qs[l := s.qs[l][..|s.qs[l]| - 1] + [f]]
                          && s'.freed == s.freed + [s.qs[l][|s.qs[l]| - 1]] && s'.inn == s.inn + [f] && s'.out == s.out
  {
    AdmitsIff(s.qs, qmax, prio);
    if Admits(s.qs, qmax, prio) {
      var l :| Lowest(s.qs, l) && l < prio && s' == Replaced(s, l, f);
    }
  }

  /** Dequeuing hands out the oldest frame of the highest non-empty class. */
  lemma DequeueMeaning(s: Ledger, qmax: nat, s': Ledger)
    requires Step(s, qmax, Deq, s')
    ensures (forall p :: 0 <= p < |s.qs| ==> s.qs[p] == []) ==> s' == s
    ensures (exists p :: 0 <= p < |s.qs| && s.qs[p] != []) ==>
              exists h :: 0 <= h < |s.qs| && s.qs[h] != [] && (forall p :: h < p < |s.qs| ==> s.qs[p] == [])
                          && s'.qs == s.qs[h := s.qs[h][1..]] && s'.out == s.out + [s.qs[h][0]]
                          && s'.inn == s.inn && s'.freed == s.freed
  {
    TotalZero(s.qs);
    if Total(s.qs) != 0 {
      var h :| Highest(s.qs, h) && s' == Taken(s, h);
    }
  }

  // ---------------------------------------------------------------------------
  // The object
  // ---------------------------------------------------------------------------

  class Queue {
    var hiPrio: nat
    const qmax: nat
    var qcnt: nat
    const queues: array<seq<Frame>>
    /** The history of the public calls. */
    ghost var ledger: Ledger

    ghost predicate Recorded()
      reads this, queues
    {
      ledger.qs == queues[..]
    }

    /** The counter is the number of frames, and every class above the hint is empty. */
    ghost predicate Shape()
      reads this, queues
    {
      && hiPrio < queues.Length
      && qcnt == Total(queues[..])
      && forall p :: hiPrio < p < queues.Length ==> queues[p] == []
    }

    ghost predicate Valid()
      reads this, queues
    {
      Shape() && qcnt <= qmax
    }

    constructor (numPrio: nat, maxLen: nat)
      requires numPrio > 0
      ensures Valid() && Recorded() && fresh(queues) && queues.Length == numPrio && qmax == maxLen && qcnt == 0
      ensures Balanced(ledger, qmax)
    {
      hiPrio, qmax, qcnt := 0, maxLen, 0;
      queues := new seq<Frame>[numPrio](_ => []);
      new;
      ledger := Ledger(queues[..], [], [], []);
      forall f ensures Count(queues[..], f) == 0 {
        NothingCounted(queues[..], f);
      }
      TotalZero(queues[..]);
    }

    /** `aicwf_frame_queue_penq`: a class may hold up to `qmax` frames of its own, whatever
        the others hold. */
    method PEnq(prio: nat, f: Frame) returns (ok: bool)
      requires Shape() && prio < queues.Length
      modifies this`hiPrio, this`qcnt, queues
      ensures Shape()
      ensures ok <==> |old(queues[prio])| < qmax
      ensures !ok ==> queues[..] == old(queues[..])
      ensures ok ==> queues[..] == old(queues[..])[prio := old(queues[prio]) + [f]]
      ensures old(qcnt) < qmax ==> ok && Valid()
    {
      TotalUpdate(queues[..], prio, queues[prio] + [f]);
      ClassBelowTotal(queues[..], prio);
      if |queues[prio]| >= qmax {
        return false;
      }
      queues[prio] := queues[prio] + [f];
      assert queues[..] == old(queues[..])[prio := old(queues[prio]) + [f]];
      qcnt := qcnt + 1;
      if hiPrio < prio {
        hiPrio := prio;
      }
      return true;
    }

    /** `aicwf_frame_queue_peek_tail`: the newest frame of the lowest non-empty class, or
        NULL when there is none. */
    method PeekTail() returns (f: Option<Frame>, prio: nat)
      requires Shape()
      ensures f == None <==> forall p :: 0 <= p < queues.Length ==> queues[p] == []
      ensures f != None ==> Lowest(queues[..], prio) && f.value == queues[prio][|queues[prio]| - 1]
    {
      TotalZero(queues[..]);
      prio := 0;
      if qcnt == 0 {
        return None, 0;
      }
      while prio < hiPrio && queues[prio] == []
        invariant prio <= hiPrio
        invariant forall p :: 0 <= p < prio ==> queues[p] == []
      {
        prio := prio + 1;
      }
      f := Some(queues[prio][|queues[prio]| - 1]);
    }

    method IsEmpty() returns (empty: bool)
      requires Valid()
      ensures empty <==> qcnt == 0
    {
      TotalZero(queues[..]);
      var len := 0;
      for prio := 0 to hiPrio + 1
        invariant len >= 0
        invariant len == 0 <==> forall p :: 0 <= p < prio ==> queues[p] == []
      {
        len := len + |queues[prio]|;
      }
      empty := len == 0;
    }

    /** The oldest frame of the highest non-empty class. */
    method Dequeue() returns (f: Option<Frame>, ghost h: int)
      requires Valid() && Recorded()
      modifies this`hiPrio, this`qcnt, this`ledger, queues
      ensures Valid() && Recorded() && Step(old(ledger), qmax, Deq, ledger)
      ensures f == None <==> old(qcnt) == 0
      ensures f == None ==> queues[..] == old(queues[..])
      ensures f != None ==> Highest(old(queues[..]), h) && f.value == old(queues[..])[h][0]
                            && queues[..] == old(queues[..])[h := old(queues[..])[h][1..]]
    {
      h := 0;
      if qcnt == 0 {
        return None, 0;
      }
      TotalZero(queues[..]);
      while hiPrio > 0 && queues[hiPrio] == []
        invariant hiPrio < queues.Length
        invariant forall p :: hiPrio < p < queues.Length ==> queues[p] == []
        invariant queues[..] == old(queues[..]) && qcnt == old(qcnt)
        modifies this`hiPrio
      {
        hiPrio := hiPrio - 1;
      }
      var prio := hiPrio;
      h := prio;
      assert queues[prio] != [];
      TotalUpdate(queues[..], prio, queues[prio][1..]);
      f := Some(queues[prio][0]);
      queues[prio] := queues[prio][1..];
      assert queues[..] == old(queues[..])[prio := old(queues[..])[prio][1..]];
      qcnt := qcnt - 1;
      ledger := Taken(ledger, prio);
    }

    /** `aicwf_frame_enq`; `evicted` is the frame freed to make room. */
    method Enqueue(f: Frame, prio: nat) returns (ok: bool, ghost evicted: Option<Frame>)
      requires Valid() && Recorded() && prio < queues.Length
      modifies this`hiPrio, this`qcnt, this`ledger, queues
      ensures Valid() && Recorded() && Step(old(ledger), qmax, Enq(f, prio), ledger)
      ensures ok <==> Admits(old(queues[..]), qmax, prio)
      ensures ok <==> old(qcnt) < qmax || exists p :: 0 <= p < prio && old(queues[..])[p] != []
      ensures !ok ==> queues[..] == old(queues[..]) && evicted == None
      ensures ok && old(qcnt) < qmax ==>
                evicted == None && queues[..] == old(queues[..])[prio := old(queues[..])[prio] + [f]]
      ensures ok && old(qcnt) == qmax ==>
                exists l :: Lowest(old(queues[..]), l) && l < prio &&
                  var q := old(queues[..])[l];
                  evicted == Some(q[|q| - 1]) && queues[..] == old(queues[..])[l := q[..|q| - 1] + [f]]
    {
      evicted := None;
      ghost var qs := queues[..];
      AdmitsIff(qs, qmax, prio);
      ClassBelowTotal(qs, prio);
      if |queues[prio]| < qmax && qcnt < qmax {
        ok := PEnq(prio, f);
        ledger := Added(ledger, prio, f);
        return;
      }
      if |queues[prio]| >= qmax {
        OnlyClass(qs, prio);
        return false, None;
      }
      TotalZero(qs);
      var tail, low := PeekTail();
      if low >= prio {
        return false, None;
      }
      var q := queues[low];
      evicted := tail;
      TotalUpdate(queues[..], low, q[..|q| - 1]);
      queues[low] := q[..|q| - 1];
      assert queues[..] == qs[low := q[..|q| - 1]];
      qcnt := qcnt - 1;
      ok := PEnq(low, f);
      assert queues[..] == qs[low := q[..|q| - 1] + [f]];
      ledger := Replaced(ledger, low, f);
    }

    /** `aicwf_frame_queue_flush`. */
    method Flush()
      requires Valid() && Recorded()
      modifies this`qcnt, this`ledger, queues
      ensures Valid() && Recorded() && Step(old(ledger), qmax, FlushAll, ledger)
      ensures qcnt == 0
      ensures forall p :: 0 <= p < queues.Length ==> queues[p] == []
    {
      for prio := 0 to queues.Length
        invariant qcnt == Total(queues[..]) <= qmax && ledger == old(ledger)
        invariant forall p :: 0 <= p < prio ==> queues[p] == []
        invariant forall p :: hiPrio < p < queues.Length ==> queues[p] == []
      {
        while queues[prio] != []
          invariant qcnt == Total(queues[..]) <= qmax && ledger == old(ledger)
          invariant forall p :: 0 <= p < prio ==> queues[p] == []
          invariant forall p :: hiPrio < p < queues.Length ==> queues[p] == []
          decreases |queues[prio]|
        {
          ghost var qs := queues[..];
          TotalUpdate(qs, prio, queues[prio][1..]);
          queues[prio] := queues[prio][1..];
          assert queues[..] == qs[prio := qs[prio][1..]];
          qcnt := qcnt - 1;
        }
      }
      TotalZero(queues[..]);
      ledger := Flushed(ledger);
      assert queues[..] == ledger.qs;
    }
  }

  lemma {:induction false} NothingCounted(qs: seq<seq<Frame>>, f: Frame)
    requires forall p :: 0 <= p < |qs| ==> qs[p] == []
    ensures Count(qs, f) == 0
    decreases |qs|
  {
    if qs != [] { NothingCounted(qs[..|qs| - 1], f); }
  }

  lemma {:induction false} FlatCounts(qs: seq<seq<Frame>>, f: Frame)
    ensures Occurs(Flat(qs), f) == Count(qs, f)
    decreases |qs|
  {
    if qs != [] { FlatCounts(qs[..|qs| - 1], f); }
  }

  lemma {:induction false} ClassBelowTotal(qs: seq<seq<Frame>>, p: nat)
    requires p < |qs|
    ensures |qs[p]| <= Total(qs)
    decreases |qs|
  {
    if p < |qs| - 1 { ClassBelowTotal(qs[..|qs| - 1], p); }
  }

  /** If one class holds every frame, no other class has any. */
  lemma OnlyClass(qs: seq<seq<Frame>>, p: nat)
    requires p < |qs| && |qs[p]| >= Total(qs)
    ensures forall l :: Lowest(qs, l) ==> l == p
  {
    TotalUpdate(qs, p, []);
    ClassBelowTotal(qs, p);
    TotalZero(qs[p := []]);
    assert forall l :: 0 <= l < |qs| && l != p ==> qs[p := []][l] == qs[l];
  }

  // ---------------------------------------------------------------------------
  // Conservation over runs
  // ---------------------------------------------------------------------------

  ghost predicate Balanced(s: Ledger, qmax: nat) {
    && Total(s.qs) <= qmax
    && forall f :: Occurs(s.inn, f) == Occurs(s.out, f) + Occurs(s.freed, f) + Count(s.qs, f)
  }

  lemma TakenBalances(s: Ledger, qmax: nat, i: nat)
    requires Balanced(s, qmax) && i < |s.qs| && s.qs[i] != []
    ensures Balanced(Taken(s, i), qmax)
  {
    var s' := Taken(s, i);
    TotalUpdate(s.qs, i, s'.qs[i]);
    forall x
      ensures Occurs(s'.inn, x) == Occurs(s'.out, x) + Occurs(s'.freed, x) + Count(s'.qs, x)
    {
      CountUpdate(s.qs, i, s'.qs[i], x);
      assert Occurs(s.inn, x) == Occurs(s.out, x) + Occurs(s.freed, x) + Count(s.qs, x);
      assert s.qs[i] == [s.qs[i][0]] + s'.qs[i];
    }
  }

  lemma AddedBalances(s: Ledger, qmax: nat, i: nat, f: Frame)
    requires Balanced(s, qmax) && i < |s.qs| && Total(s.qs) < qmax
    ensures Balanced(Added(s, i, f), qmax)
  {
    var s' := Added(s, i, f);
    TotalUpdate(s.qs, i, s'.qs[i]);
    forall x
      ensures Occurs(s'.inn, x) == Occurs(s'.out, x) + Occurs(s'.freed, x) + Count(s'.qs, x)
    {
      CountUpdate(s.qs, i, s'.qs[i], x);
      assert Occurs(s.inn, x) == Occurs(s.out, x) + Occurs(s.freed, x) + Count(s.qs, x);
    }
  }

  lemma ReplacedBalances(s: Ledger, qmax: nat, i: nat, f: Frame)
    requires Balanced(s, qmax) && i < |s.qs| && s.qs[i] != []
    ensures Balanced(Replaced(s, i, f), qmax)
  {
    var s' := Replaced(s, i, f);
    TotalUpdate(s.qs, i, s'.qs[i]);
    forall x
      ensures Occurs(s'.inn, x) == Occurs(s'.out, x) + Occurs(s'.freed, x) + Count(s'.qs, x)
    {
      CountUpdate(s.qs, i, s'.qs[i], x);
      assert Occurs(s.inn, x) == Occurs(s.out, x) + Occurs(s.freed, x) + Count(s.qs, x);
      assert s.qs[i] == s.qs[i][..|s.qs[i]| - 1] + [s.qs[i][|s.qs[i]| - 1]];
    }
  }

  lemma FlushedBalances(s: Ledger, qmax: nat)
    requires Balanced(s, qmax)
    ensures Balanced(Flushed(s), qmax)
  {
    var s' := Flushed(s);
    TotalZero(s'.qs);
    forall x
      ensures Occurs(s'.inn, x) == Occurs(s'.out, x) + Occurs(s'.freed, x) + Count(s'.qs, x)
    {
      assert Occurs(s.inn, x) == Occurs(s.out, x) + Occurs(s.freed, x) + Count(s.qs, x);
      FlatCounts(s.qs, x);
      NothingCounted(s'.qs, x);
    }
  }

  lemma StepBalances(s: Ledger, qmax: nat, op: Op, s': Ledger)
    requires Balanced(s, qmax) && Step(s, qmax, op, s')
    ensures Balanced(s', qmax)
  {
    match op
    case Deq =>
      if Total(s.qs) != 0 {
        var h :| Highest(s.qs, h) && s' == Taken(s, h);
        TakenBalances(s, qmax, h);
      }
    case FlushAll => FlushedBalances(s, qmax);
    case Enq(f, prio) =>
      if prio >= |s.qs| || !Admits(s.qs, qmax, prio) {
      } else if Total(s.qs) < qmax {
        AddedBalances(s, qmax, prio, f);
      } else {
        var l :| Lowest(s.qs, l) && l < prio && s' == Replaced(s, l, f);
        ReplacedBalances(s, qmax, l, f);
      }
  }

  /** Over any run every admitted frame is handed out, freed by an eviction, or
      still queued, exactly once, and the queue never holds more than `qmax`. */
  lemma {:induction false} RunBalances(states: seq<Ledger>, qmax: nat, ops: seq<Op>)
    requires |states| == |ops| + 1 && Balanced(states[0], qmax)
    requires forall i :: 0 <= i < |ops| ==> Step(states[i], qmax, ops[i], states[i + 1])
    ensures Balanced(states[|ops|], qmax)
    decreases |ops|
  {
    if ops != [] {
      var n := |ops| - 1;
      RunBalances(states[..n + 1], qmax, ops[..n]);
      StepBalances(states[n], qmax, ops[n], states[n + 1]);
    }
  }
}
