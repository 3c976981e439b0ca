/** The host side of the IPC transmit rings (ipc_host.c).

    Two free-running 32-bit indices and a power-of-two array of host ids.  The ring
    is shown to be a bounded FIFO, across wraparound of the indices and through the
    confirmation loop, which advances first and rolls back afterwards. */
module IpcTxRing {
  import opened Machine

  // ---------------------------------------------------------------------------
  // Masking
  // ---------------------------------------------------------------------------

  function Pow2(k: nat): (p: nat)
    ensures p > 0
  {
    if k == 0 then 1 else 2 * Pow2(k - 1)
  }

  /** Bitwise conjunction of two unsigned integers. */
  function BitAnd(x: nat, y: nat): nat {
    if x == 0 || y == 0 then 0 else 2 * BitAnd(x / 2, y / 2) + if x % 2 == 1 && y % 2 == 1 then 1 else 0
  }

  /** Remainder by repeated subtraction. */
  function Rem(x: nat, n: nat): (r: nat)
    requires n > 0
    ensures r < n
  {
    if x < n then x else Rem(x - n, n)
  }

  lemma {:induction false} RemHalves(x: nat, p: nat)
    requires p > 0
    ensures Rem(x, 2 * p) == 2 * Rem(x / 2, p) + x % 2
    decreases x
  {
    if x >= 2 * p {
      RemHalves(x - 2 * p, p);
      assert (x - 2 * p) / 2 == x / 2 - p;
    }
  }

  /** Masking with `2^k - 1` is the remainder modulo `2^k`. */
  lemma {:induction false} MaskIsRemainder(x: nat, k: nat)
    ensures BitAnd(x, Pow2(k) - 1) == Rem(x, Pow2(k))
    decreases k
  {
    if k == 0 {
      RemOne(x);
    } else if x > 0 {
      var p := Pow2(k - 1);
      assert (2 * p - 1) / 2 == p - 1 && (2 * p - 1) % 2 == 1;
      MaskIsRemainder(x / 2, k - 1);
      RemHalves(x, p);
    }
  }

  lemma {:induction false} RemOne(x: nat)
    ensures Rem(x, 1) == 0
  {
    if x > 0 { RemOne(x - 1); }
  }

  lemma {:induction false} RemSucc(x: nat, n: nat)
    requires n > 0
    ensures Rem(x + 1, n) == if Rem(x, n) + 1 == n then 0 else Rem(x, n) + 1
  {
    if x >= n { RemSucc(x - n, n); }
  }

  lemma {:induction false} RemShift(x: nat, y: nat, n: nat)
    requires n > 0 && Rem(x, n) == 0
    ensures Rem(x + y, n) == Rem(y, n)
    decreases x
  {
    if x >= n { RemShift(x - n, y, n); }
  }

  /** Every smaller power of two divides a larger one. */
  lemma {:induction false} Pow2Divides(k: nat, m: nat)
    requires k <= m
    ensures Rem(Pow2(m), Pow2(k)) == 0 && Pow2(k) <= Pow2(m)
    decreases m
  {
    if k < m {
      Pow2Divides(k, m - 1);
      RemShift(Pow2(m - 1), Pow2(m - 1), Pow2(k));
    } else {
      assert Rem(Pow2(k), Pow2(k)) == Rem(0, Pow2(k));
    }
  }

  lemma Pow2At32(m: nat)
    requires m == 32
    ensures Pow2(m) == U32
  {
    assert Pow2(m - 30) == 2 * Pow2(m - 31) == 4 * Pow2(0);
    Times64(m - 30);
    Times64(m - 24);
    Times64(m - 18);
    Times64(m - 12);
    Times64(m - 6);
  }

  lemma Times64(k: nat)
    ensures Pow2(k + 6) == 64 * Pow2(k)
  {
    assert Pow2(k + 3) == 2 * Pow2(k + 2) == 4 * Pow2(k + 1) == 8 * Pow2(k);
    assert Pow2(k + 6) == 2 * Pow2(k + 5) == 4 * Pow2(k + 4) == 8 * Pow2(k + 3);
  }

  lemma SizeDividesU32(k: nat, m: nat)
    requires k < 32 == m
    ensures Rem(U32, Pow2(k)) == 0 && 2 * Pow2(k) <= U32
  {
    Pow2At32(m);
    Pow2Divides(k, m);
    Pow2Divides(k, m - 1);
  }

  function Inc(x: nat): nat { if x + 1 < U32 then x + 1 else x + 1 - U32 }

  function Next(r: nat, size: nat): nat { if r + 1 == size then 0 else r + 1 }

  /** A free-running index moves to the neighbouring slot, also when it wraps. */
  lemma IncMovesSlot(x: nat, k: nat)
    requires k < 32 && x < U32
    ensures Rem(Inc(x), Pow2(k)) == Next(Rem(x, Pow2(k)), Pow2(k))
  {
    RemSucc(x, Pow2(k));
    SizeDividesU32(k, 32);
  }

  // ---------------------------------------------------------------------------
  // A window of a circular array
  // ---------------------------------------------------------------------------

  function Slot(r: nat, i: nat, size: nat): nat {
    if r + i < size then r + i else r + i - size
  }

  function Offset(r: nat, j: nat, size: nat): int {
    if r <= j then j - r else j - r + size
  }

  function Window(ids: seq<int>, r: nat, n: nat): seq<int>
    requires r < |ids| && n <= |ids|
  {
    seq(n, i requires 0 <= i < n => ids[Slot(r, i, |ids|)])
  }

  /** Exactly the window slots hold a host id. */
  ghost predicate Exact(ids: seq<int>, r: nat, n: nat) {
    forall j :: 0 <= j < |ids| ==> (ids[j] != 0 <==> Offset(r, j, |ids|) < n)
  }

  lemma WindowPush(ids: seq<int>, r: nat, n: nat, x: int)
    requires r < |ids| && n < |ids| && x != 0 && Exact(ids, r, n)
    ensures var ids' := ids[Slot(r, n, |ids|) := x];
            Window(ids', r, n + 1) == Window(ids, r, n) + [x] && Exact(ids', r, n + 1)
  {
  }

  lemma WindowUnpop(ids: seq<int>, r: nat, n: nat, x: int)
    requires r < |ids| && n < |ids| && x != 0 && Exact(ids, Next(r, |ids|), n)
    ensures var ids' := ids[r := x];
            Window(ids', r, n + 1) == [x] + Window(ids, Next(r, |ids|), n) && Exact(ids', r, n + 1)
  {
  }

  lemma WindowPop(ids: seq<int>, r: nat, n: nat)
    requires r < |ids| && 0 < n <= |ids| && Exact(ids, r, n)
    ensures var ids' := ids[r := 0];
            Window(ids', Next(r, |ids|), n - 1) == Window(ids, r, n)[1..] && Exact(ids', Next(r, |ids|), n - 1)
  {
  }

  // ---------------------------------------------------------------------------
  // The bounded FIFO that the ring refines
  // ---------------------------------------------------------------------------

  /** Answer of one confirmation callback, non-zero or zero, after it re-entered get and
      push for further frames. */
  datatype Reply = Refuse(more: seq<int>) | Accept(more: seq<int>)

  /** get-then-push for each id, dropping those for which get returns NULL. */
  function Offer(q: seq<int>, size: nat, ids: seq<int>): (q': seq<int>)
    ensures |q| <= size ==> |q'| <= size
    decreases |ids|
  {
    if ids == [] then q else Offer(if |q| < size then q + [ids[0]] else q, size, ids[1..])
  }

  /** The FIFO after a confirmation loop that meets the answers from the `k`-th on; a
      refused id stays. */
  function AfterConfirm(q: seq<int>, size: nat, rs: seq<Reply>, k: nat): seq<int>
    requires k <= |rs|
    decreases |rs| - k
  {
    if q == [] || k == |rs| then q
    else if rs[k].Refuse? then Offer(q, size, rs[k].more)
    else AfterConfirm(Offer(q[1..], size, rs[k].more), size, rs, k + 1)
  }

  function Delivered(q: seq<int>, size: nat, rs: seq<Reply>, k: nat): seq<int>
    requires k <= |rs|
    decreases |rs| - k
  {
    if q == [] || k == |rs| || rs[k].Refuse? then []
    else [q[0]] + Delivered(Offer(q[1..], size, rs[k].more), size, rs, k + 1)
  }

  /** A callback that refuses has left room for the id that it refused. */
  predicate Fits(q: seq<int>, size: nat, rs: seq<Reply>, k: nat)
    requires k <= |rs|
    decreases |rs| - k
  {
    if q == [] || k == |rs| then true
    else if rs[k].Refuse? then |q| + |rs[k].more| <= size
    else Fits(Offer(q[1..], size, rs[k].more), size, rs, k + 1)
  }

  /** A loop that began with `q0` has delivered `out` in `k` turns and is left with `q`. */
  ghost predicate Progress(q0: seq<int>, q: seq<int>, size: nat, rs: seq<Reply>, k: nat, out: seq<int>)
    requires k <= |rs|
  {
    && AfterConfirm(q0, size, rs, 0) == AfterConfirm(q, size, rs, k)
    && Delivered(q0, size, rs, 0) == out + Delivered(q, size, rs, k)
    && (Fits(q0, size, rs, 0) <==> Fits(q, size, rs, k))
  }

  /** One turn: the loop goes on with the next answer, or ends here. */
  lemma ProgressTurn(q0: seq<int>, q: seq<int>, size: nat, rs: seq<Reply>, k: nat, out: seq<int>)
    requires k <= |rs| && |q| <= size && Progress(q0, q, size, rs, k, out)
    ensures q != [] && k < |rs| && rs[k].Accept? ==>
              Progress(q0, Offer(q[1..], size, rs[k].more), size, rs, k + 1, out + [q[0]])
    ensures q == [] || k == |rs| ==>
              AfterConfirm(q0, size, rs, 0) == q && Delivered(q0, size, rs, 0) == out && Fits(q0, size, rs, 0)
    ensures q != [] && k < |rs| && rs[k].Refuse? ==>
              && Delivered(q0, size, rs, 0) == out
              && (Fits(q0, size, rs, 0) <==> |q| + |rs[k].more| <= size)
              && (Fits(q0, size, rs, 0) ==> AfterConfirm(q0, size, rs, 0) == q + rs[k].more)
  {
    if q != [] && k < |rs| {
      OfferFits(q, size, rs[k].more);
    }
  }

  /** How far a loop goes: it delivers one id for each answer up to the first refusal, and
      stops before that only when the FIFO is empty. */
  lemma {:induction false} ConfirmStops(q: seq<int>, size: nat, rs: seq<Reply>, k: nat)
    requires k <= |rs|
    ensures var n := |Delivered(q, size, rs, k)|;
            && k + n <= |rs| && (forall j :: k <= j < k + n ==> rs[j].Accept?)
            && (k + n == |rs| || rs[k + n].Refuse? || AfterConfirm(q, size, rs, k) == [])
    decreases |rs| - k
  {
    if q != [] && k < |rs| && rs[k].Accept? {
      ConfirmStops(Offer(q[1..], size, rs[k].more), size, rs, k + 1);
    }
  }

  /** Ids come out oldest first. */
  lemma {:induction false} DeliversFront(q: seq<int>, size: nat, rs: seq<Reply>, k: nat)
    requires k <= |rs|
    ensures forall j :: 0 <= j < |Delivered(q, size, rs, k)| && j < |q| ==> Delivered(q, size, rs, k)[j] == q[j]
    decreases |rs| - k
  {
    if q != [] && k < |rs| && rs[k].Accept? {
      OfferAppends(q[1..], size, rs[k].more);
      DeliversFront(Offer(q[1..], size, rs[k].more), size, rs, k + 1);
    }
  }

  /** Frames pushed from a callback are taken in order while there is room, one for each
      id. */
  lemma {:induction false} OfferTakes(q: seq<int>, size: nat, ids: seq<int>)
    requires |q| <= size
    ensures var n := if |q| + |ids| <= size then |ids| else size - |q|;
            Offer(q, size, ids) == q + ids[..n]
    decreases |ids|
  {
    if ids != [] {
      if |q| < size {
        OfferTakes(q + [ids[0]], size, ids[1..]);
        var n := if |q| + |ids| <= size then |ids| else size - |q|;
        assert ids[..n] == [ids[0]] + ids[1..][..n - 1];
      } else {
        OfferTakes(q, size, ids[1..]);
      }
    }
  }

  /** A full ring has none: one frame pushed before the refusal overfills it. */
  lemma RefusalCanOverfill(q: seq<int>, size: nat, next: int)
    requires |q| == size > 0
    ensures !Fits(q, size, [Refuse([next])], 0)
  {
  }

  /** The driver's own callback refuses before it does anything else. */
  predicate Plain(rs: seq<Reply>) { forall k :: 0 <= k < |rs| && rs[k].Refuse? ==> rs[k].more == [] }

  lemma {:induction false} PlainFits(q: seq<int>, size: nat, rs: seq<Reply>, k: nat)
    requires |q| <= size && k <= |rs| && Plain(rs)
    ensures Fits(q, size, rs, k)
    decreases |rs| - k
  {
    if q != [] && k < |rs| && rs[k].Accept? {
      PlainFits(Offer(q[1..], size, rs[k].more), size, rs, k + 1);
    }
  }

  datatype Op = Push(id: int) | Flush | Confirm(replies: seq<Reply>)

  /** `pushed` and `out` are the ids accepted and returned so far. */
  datatype Fifo = Fifo(q: seq<int>, pushed: seq<int>, out: seq<int>)

  /** What `Offer` accepted. */
  function Accepted(q: seq<int>, size: nat, ids: seq<int>): seq<int>
    decreases |ids|
  {
    if ids == [] then []
    else if |q| < size then [ids[0]] + Accepted(q + [ids[0]], size, ids[1..])
    else Accepted(q, size, ids[1..])
  }

  function AcceptedByConfirm(q: seq<int>, size: nat, rs: seq<Reply>, k: nat): seq<int>
    requires k <= |rs|
    decreases |rs| - k
  {
    if q == [] || k == |rs| then []
    else if rs[k].Refuse? then Accepted(q, size, rs[k].more)
    else Accepted(q[1..], size, rs[k].more)
         + AcceptedByConfirm(Offer(q[1..], size, rs[k].more), size, rs, k + 1)
  }

  function Do(f: Fifo, size: nat, op: Op): Fifo {
    match op
    case Push(id) => if |f.q| < size then Fifo(f.q + [id], f.pushed + [id], f.out) else f
    case Flush => if f.q == [] then f else Fifo(f.q[1..], f.pushed, f.out + [f.q[0]])
    case Confirm(rs) =>
      Fifo(AfterConfirm(f.q, size, rs, 0), f.pushed + AcceptedByConfirm(f.q, size, rs, 0),
           f.out + Delivered(f.q, size, rs, 0))
  }

  function DoAll(f: Fifo, size: nat, ops: seq<Op>): Fifo
    decreases |ops|
  {
    if ops == [] then f else DoAll(Do(f, size, ops[0]), size, ops[1..])
  }

  lemma {:induction false} OfferAppends(q: seq<int>, size: nat, ids: seq<int>)
    ensures Offer(q, size, ids) == q + Accepted(q, size, ids)
    decreases |ids|
  {
    if ids == [] {
    } else if |q| < size {
      OfferAppends(q + [ids[0]], size, ids[1..]);
    } else {
      OfferAppends(q, size, ids[1..]);
    }
  }

  /** With enough room everything offered is accepted. */
  lemma {:induction false} OfferFits(q: seq<int>, size: nat, ids: seq<int>)
    ensures |q| + |ids| <= size ==> Offer(q, size, ids) == q + ids
    ensures |q| <= size < |q| + |ids| ==> |Offer(q, size, ids)| == size
    decreases |ids|
  {
    if ids != [] {
      OfferFits(if |q| < size then q + [ids[0]] else q, size, ids[1..]);
      assert q + ids == (q + [ids[0]]) + ids[1..];
    }
  }

  /** What a refused id needs to go back to the front. */
  lemma RefusedFits(q: seq<int>, size: nat, more: seq<int>)
    requires 0 < |q| <= size
    ensures var q' := Offer(q[1..], size, more);
            && (|q'| < size <==> |q| + |more| <= size)
            && (|q'| < size ==> [q[0]] + q' == q + more)
  {
    OfferFits(q[1..], size, more);
    assert q == [q[0]] + q[1..];
  }

  lemma {:induction false} ConfirmConserves(q: seq<int>, size: nat, rs: seq<Reply>, k: nat)
    requires k <= |rs|
    ensures Delivered(q, size, rs, k) + AfterConfirm(q, size, rs, k) == q + AcceptedByConfirm(q, size, rs, k)
    ensures |q| <= size ==> |AfterConfirm(q, size, rs, k)| <= size
    decreases |rs| - k
  {
    if q == [] || k == |rs| {
    } else if rs[k].Refuse? {
      OfferAppends(q, size, rs[k].more);
    } else {
      var q1 := Offer(q[1..], size, rs[k].more);
      OfferAppends(q[1..], size, rs[k].more);
      ConfirmConserves(q1, size, rs, k + 1);
      Regroup(q, Accepted(q[1..], size, rs[k].more), AcceptedByConfirm(q1, size, rs, k + 1),
              Delivered(q1, size, rs, k + 1), AfterConfirm(q1, size, rs, k + 1));
    }
  }

  lemma Regroup(q: seq<int>, a: seq<int>, b: seq<int>, d: seq<int>, e: seq<int>)
    requires q != [] && d + e == (q[1..] + a) + b
    ensures ([q[0]] + d) + e == q + (a + b)
  {
    assert ([q[0]] + d) + e == [q[0]] + (d + e);
    assert [q[0]] + ((q[1..] + a) + b) == ([q[0]] + q[1..]) + (a + b);
  }

  /** Over any run, what came out followed by what is still queued is what went in:
      ids are returned in push order, each exactly once, and never more than `size`
      are outstanding. */
  lemma {:induction false} RunConserves(f: Fifo, size: nat, ops: seq<Op>)
    requires f.pushed == f.out + f.q && |f.q| <= size
    ensures var f' := DoAll(f, size, ops); f'.pushed == f'.out + f'.q && |f'.q| <= size
    decreases |ops|
  {
    if ops != [] {
      match ops[0] {
        case Confirm(rs) =>
          ConfirmConserves(f.q, size, rs, 0);
          assert f.out + f.q + AcceptedByConfirm(f.q, size, rs, 0)
              == f.out + (f.q + AcceptedByConfirm(f.q, size, rs, 0));
        case _ =>
      }
      RunConserves(Do(f, size, ops[0]), size, ops[1..]);
    }
  }

  // ---------------------------------------------------------------------------
  // The ring
  // ---------------------------------------------------------------------------

  class TxRing {
    const size: nat
    ghost const bits: nat
    var usedIdx: nat
    var freeIdx: nat
    var hostId: array<int>

    ghost function Count(): nat
      requires usedIdx < U32
      reads this
    {
      if usedIdx <= freeIdx then freeIdx - usedIdx else freeIdx + U32 - usedIdx
    }

    ghost predicate Valid()
      reads this, hostId
    {
      && bits < 32 && size == Pow2(bits) && 2 * size <= U32 && hostId.Length == size
      && usedIdx < U32 && freeIdx < U32 && Count() <= size
      && Rem(freeIdx, size) == Slot(Rem(usedIdx, size), Count(), size)
      && Exact(hostId[..], Rem(usedIdx, size), Count())
    }

    /** The outstanding host ids, oldest first. */
    ghost function Contents(): (q: seq<int>)
      requires Valid()
      reads this, hostId
      ensures |q| == Count() <= size
    {
      Window(hostId[..], Rem(usedIdx, size), Count())
    }

    constructor (k: nat)
      requires k < 32
      ensures Valid() && fresh(hostId) && size == Pow2(k) && Contents() == []
    {
      size, bits := Pow2(k), k;
      usedIdx, freeIdx := 0, 0;
      hostId := new int[Pow2(k)](_ => 0);
      SizeDividesU32(k, 32);
    }

    /** Index of the next free descriptor, or -1 for NULL. */
    method TxDescGet() returns (d: int)
      requires Valid()
      ensures d == -1 <==> |Contents()| == size
      ensures d != -1 ==> 0 <= d < size && hostId[d] == 0 && d == Slot(Rem(usedIdx, size), |Contents()|, size)
    {
      if freeIdx != (if usedIdx + size < U32 then usedIdx + size else usedIdx + size - U32) {
        MaskIsRemainder(freeIdx, bits);
        d := BitAnd(freeIdx, size - 1);
      } else {
        d := -1;
      }
    }

    /** The source makes no test: the ring stays a FIFO, with the id appended, exactly
        when there was room and the id is not NULL. */
    method TxDescPush(id: int)
      requires Valid()
      modifies this`freeIdx, hostId
      ensures Valid() <==> id != 0 && |old(Contents())| < size
      ensures Valid() ==> Contents() == old(Contents()) + [id]
    {
      MaskIsRemainder(freeIdx, bits);
      IncMovesSlot(freeIdx, bits);
      ghost var n, ids, r := Count(), hostId[..], Rem(usedIdx, size);
      if id != 0 && n < size {
        WindowPush(ids, r, n, id);
      }
      var slot := BitAnd(freeIdx, size - 1);
      hostId[slot] := id;
      freeIdx := Inc(freeIdx);
      assert hostId[..] == ids[slot := id];
      assert Count() == n + 1;
      if id == 0 && n < size {
        assert Offset(r, slot, size) == n && hostId[..][slot] == 0;
      }
    }

    /** Oldest host id, or 0 when none is outstanding. */
    method TxFlush() returns (id: int)
      requires Valid()
      modifies this`usedIdx, hostId
      ensures Valid()
      ensures old(Contents()) == [] ==> id == 0 && Contents() == []
      ensures old(Contents()) != [] ==> id == old(Contents())[0] && Contents() == old(Contents())[1..]
    {
      MaskIsRemainder(usedIdx, bits);
      var slot := BitAnd(usedIdx, size - 1);
      id := hostId[slot];
      if id != 0 {
        Drop(slot);
      }
    }

    /** Advance past the head slot and clear it. */
    method Drop(slot: nat)
      requires Valid() && slot == Rem(usedIdx, size) && hostId[slot] != 0
      modifies this`usedIdx, hostId
      ensures Valid() && old(Contents()) != [] && Contents() == old(Contents())[1..]
      ensures usedIdx == Inc(old(usedIdx))
      ensures hostId[..] == old(hostId[..])[slot := 0]
    {
      ghost var n := Count();
      ghost var ids := hostId[..];
      WindowPop(ids, slot, n);
      IncMovesSlot(usedIdx, bits);
      hostId[slot] := 0;
      usedIdx := Inc(usedIdx);
      assert hostId[..] == ids[slot := 0];
      assert Count() == n - 1;
    }

    /** A successful callback that finds room for more frames. */
    method Reenter(ids: seq<int>)
      requires Valid() && 0 !in ids
      modifies this`freeIdx, hostId
      ensures Valid() && Contents() == Offer(old(Contents()), size, ids)
    {
      var i := 0;
      while i < |ids|
        invariant i <= |ids| && Valid()
        invariant Offer(old(Contents()), size, ids) == Offer(Contents(), size, ids[i..])
      {
        var d := TxDescGet();
        assert ids[i..][1..] == ids[i + 1..];
        if d != -1 {
          TxDescPush(ids[i]);
        }
        i := i + 1;
      }
    }

    /** One turn of the confirmation loop: take the head, clear its slot, and put both
        back unless the callback returns 0.  Putting them back is right exactly when the
        callback left room. */
    method ConfirmOne(reply: Reply) returns (id: int, more: bool)
      requires Valid() && 0 !in reply.more
      modifies this`usedIdx, this`freeIdx, hostId
      ensures more <==> old(Contents()) != [] && reply.Accept?
      ensures old(Contents()) == [] ==> Valid() && Contents() == []
      ensures more ==> Valid() && id == old(Contents())[0]
                       && Contents() == Offer(old(Contents())[1..], size, reply.more)
      ensures old(Contents()) != [] && reply.Refuse? ==>
                (Valid() <==> |old(Contents())| + |reply.more| <= size)
                && (Valid() ==> Contents() == old(Contents()) + reply.more)
    {
      var used := usedIdx;
      MaskIsRemainder(used, bits);
      var slot := BitAnd(used, size - 1);
      id := hostId[slot];
      if id == 0 {
        NothingThere(slot);
        return id, false;
      }
      Drop(slot);
      Reenter(reply.more);
      if reply.Refuse? {
        RefusedFits(old(Contents()), size, reply.more);
        PutBack(used, slot, id);
        return id, false;
      }
      return id, true;
    }

    /** The turn that finds no host id: index and slot end as they began. */
    method NothingThere(slot: nat)
      requires Valid() && slot == Rem(usedIdx, size) && hostId[slot] == 0
      modifies this`usedIdx, hostId
      ensures Valid() && Contents() == old(Contents()) == []
    {
      var used := usedIdx;
      ghost var was := hostId[..];
      usedIdx := Inc(usedIdx);
      hostId[slot] := 0;
      usedIdx := used;
      assert hostId[..] == was;
    }

    /** Roll back by one: right exactly when the slot is still free. */
    method PutBack(used: nat, slot: nat, id: int)
      requires Valid() && used < U32 && usedIdx == Inc(used) && slot == Rem(used, size) && id != 0
      modifies this`usedIdx, hostId
      ensures Valid() <==> |old(Contents())| < size
      ensures Valid() ==> Contents() == [id] + old(Contents())
    {
      ghost var n, ids := Count(), hostId[..];
      IncMovesSlot(used, bits);
      if n < size {
        WindowUnpop(ids, slot, n, id);
      }
      usedIdx := used;
      hostId[slot] := id;
      assert hostId[..] == ids[slot := id];
      assert Count() == n + 1;
    }

    /** `ipc_host_tx_cfm_handler`; the k-th callback answers `replies[k]`, and any later
        one is refused.  Ids are delivered oldest first, and the ring stays a FIFO
        exactly when a refusing callback left room for what it refused; so always with
        the driver's own callback. */
    method TxConfirm(replies: seq<Reply>) returns (out: seq<int>)
      requires Valid() && forall k :: 0 <= k < |replies| ==> 0 !in replies[k].more
      modifies this`usedIdx, this`freeIdx, hostId
      ensures Valid() <==> Fits(old(Contents()), size, replies, 0)
      ensures Plain(replies) ==> Valid()
      ensures Valid() ==> Contents() == AfterConfirm(old(Contents()), size, replies, 0)
      ensures out == Delivered(old(Contents()), size, replies, 0)
      ensures |out| <= |replies| && forall j :: 0 <= j < |out| ==> replies[j].Accept?
      ensures Valid() ==> |out| == |replies| || replies[|out|].Refuse? || Contents() == []
      ensures forall j :: 0 <= j < |out| && j < |old(Contents())| ==> out[j] == old(Contents())[j]
    {
      ConfirmStops(Contents(), size, replies, 0);
      DeliversFront(Contents(), size, replies, 0);
      if Plain(replies) {
        PlainFits(Contents(), size, replies, 0);
      }
      out := ConfirmLoop(replies);
    }

    /** Its loop. */
    method ConfirmLoop(replies: seq<Reply>) returns (out: seq<int>)
      requires Valid() && forall k :: 0 <= k < |replies| ==> 0 !in replies[k].more
      modifies this`usedIdx, this`freeIdx, hostId
      ensures Valid() <==> Fits(old(Contents()), size, replies, 0)
      ensures Valid() ==> Contents() == AfterConfirm(old(Contents()), size, replies, 0)
      ensures out == Delivered(old(Contents()), size, replies, 0)
    {
      ghost var q0 := Contents();
      out := [];
      var k := 0;
      while true
        invariant k <= |replies| && Valid() && Progress(q0, Contents(), size, replies, k, out)
        decreases |replies| - k
      {
        ghost var q := Contents();
        var reply := if k < |replies| then replies[k] else Refuse([]);
        ProgressTurn(q0, q, size, replies, k, out);
        var id, more := ConfirmOne(reply);
        if !more {
          break;
        }
        out := out + [id];
        k := k + 1;
      }
    }

    /** A run of pushes (each after a get), flushes and confirmations does to the ring
        what it does to the FIFO, and returns the ids the FIFO returns. */
    method RunOps(ops: seq<Op>) returns (out: seq<int>)
      requires Valid() && AllFit(Fifo(Contents(), [], []), size, ops) && forall k :: 0 <= k < |ops| ==> NoNull(ops[k])
      modifies this`usedIdx, this`freeIdx, hostId
      ensures Valid()
      ensures var f := DoAll(Fifo(old(Contents()), [], []), size, ops); Contents() == f.q && out == f.out
    {
      out := [];
      var k := 0;
      ghost var f := Fifo(Contents(), [], []);
      assert ops[0..] == ops;
      while k < |ops|
        invariant k <= |ops| && Valid() && Contents() == f.q && out == f.out && AllFit(f, size, ops[k..])
        invariant DoAll(f, size, ops[k..]) == DoAll(Fifo(old(Contents()), [], []), size, ops)
      {
        assert ops[k..][0] == ops[k] && ops[k..][1..] == ops[k + 1..];
        var got := RunOp(ops[k], f);
        out := out + got;
        f := Do(f, size, ops[k]);
        k := k + 1;
      }
    }

    method RunOp(op: Op, ghost f: Fifo) returns (got: seq<int>)
      requires Valid() && Contents() == f.q && NoNull(op) && OpFits(f, size, op)
      modifies this`usedIdx, this`freeIdx, hostId
      ensures Valid() && Contents() == Do(f, size, op).q && f.out + got == Do(f, size, op).out
    {
      got := [];
      match op {
        case Push(id) =>
          var d := TxDescGet();
          if d != -1 {
            TxDescPush(id);
          }
        case Flush =>
          var id := TxFlush();
          if id != 0 {
            got := [id];
          }
        case Confirm(rs) =>
          got := TxConfirm(rs);
      }
    }
  }

  predicate NoNull(op: Op) {
    match op
    case Push(id) => id != 0
    case Flush => true
    case Confirm(rs) => forall k :: 0 <= k < |rs| ==> 0 !in rs[k].more
  }

  predicate OpFits(f: Fifo, size: nat, op: Op) { op.Confirm? ==> Fits(f.q, size, op.replies, 0) }

  /** Runs with such callbacks always fit. */
  lemma {:induction false} PlainRunFits(f: Fifo, size: nat, ops: seq<Op>)
    requires |f.q| <= size && forall k :: 0 <= k < |ops| && ops[k].Confirm? ==> Plain(ops[k].replies)
    ensures AllFit(f, size, ops)
    decreases |ops|
  {
    if ops != [] {
      if ops[0].Confirm? {
        PlainFits(f.q, size, ops[0].replies, 0);
        ConfirmConserves(f.q, size, ops[0].replies, 0);
      }
      PlainRunFits(Do(f, size, ops[0]), size, ops[1..]);
    }
  }

  predicate AllFit(f: Fifo, size: nat, ops: seq<Op>)
    decreases |ops|
  {
    ops == [] || (OpFits(f, size, ops[0]) && AllFit(Do(f, size, ops[0]), size, ops[1..]))
  }

  /** `ipc_host_tx_frames_pending`: some ring of some queue has an outstanding frame. */
  method TxFramesPending(rings: seq<seq<TxRing>>) returns (pending: bool)
    requires forall i, j :: 0 <= i < |rings| && 0 <= j < |rings[i]| ==> rings[i][j].Valid()
    ensures pending <==> exists i, j :: 0 <= i < |rings| && 0 <= j < |rings[i]| && rings[i][j].Contents() != []
  {
    pending := false;
    var i := 0;
    while i < |rings| && !pending
      invariant i <= |rings|
      invariant pending ==> exists a, b :: 0 <= a < |rings| && 0 <= b < |rings[a]| && rings[a][b].Contents() != []
      invariant !pending ==> forall a, b :: 0 <= a < i && 0 <= b < |rings[a]| ==> rings[a][b].Contents() == []
      decreases |rings| - i
    {
      for j := 0 to |rings[i]|
        invariant !pending
        invariant forall b :: 0 <= b < j ==> rings[i][b].Contents() == []
      {
        if rings[i][j].usedIdx != rings[i][j].freeIdx {
          assert rings[i][j].Contents() != [];
          pending := true;
          break;
        }
      }
      i := i + 1;
    }
  }
}
