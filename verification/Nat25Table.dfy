/** The NAT2.5 address table (aic_br_ext.c): sixteen hash chains of entries that age
    and are removed once their use count has been spent. */
module Nat25Table {
  import opened Machine

  const BUCKETS: nat := 16
  const ADDR_LEN: nat := 17
  const NAT25_IPV4 := 1
  const NAT25_IPV6 := 2
  const NAT25_IPX := 3
  const NAT25_APPLE := 4
  const NAT25_PPPOE := 5

  type Addr = a: seq<byte> | |a| == 17 witness seq(17, _ => 0)
  type Mac = seq<byte>
  type Bucket = h: int | 0 <= h < 16

  datatype Entry = Entry(addr: Addr, mac: Mac, stamp: int, uses: int)

  // ---------------------------------------------------------------------------
  // Hashing
  // ---------------------------------------------------------------------------

  /** Bit `k` of `x`. */
  function Bit(x: nat, k: nat): nat { if k == 0 then x % 2 else Bit(x / 2, k - 1) }

  /** Bit `k` of the exclusive or of `bs`. */
  function XorBit(bs: seq<byte>, k: nat): (p: nat)
    ensures p < 2
  {
    if bs == [] then 0 else (Bit(bs[0], k) + XorBit(bs[1..], k)) % 2
  }

  /** The low four bits of the exclusive or of `bs`. */
  function XorLow4(bs: seq<byte>): Bucket {
    XorBit(bs, 0) + 2 * XorBit(bs, 1) + 4 * XorBit(bs, 2) + 8 * XorBit(bs, 3)
  }

  /** `__nat25_network_hash`. */
  function Hash(a: Addr): Bucket {
    if a[0] == NAT25_IPV4 then XorLow4(a[7..11])
    else if a[0] == NAT25_IPX then XorLow4(a[1..11])
    else if a[0] == NAT25_APPLE then XorLow4(a[1..4])
    else if a[0] == NAT25_PPPOE then XorLow4(a[0..9])
    else if a[0] == NAT25_IPV6 then XorLow4(a[1..17])
    else XorLow4(a)
  }

  // ---------------------------------------------------------------------------
  // Chains
  // ---------------------------------------------------------------------------

  /** Position of the entry for `a`, or the length of the chain. */
  function Pos(c: seq<Entry>, a: Addr): (i: nat)
    ensures i <= |c| && (i < |c| ==> c[i].addr == a) && forall k :: 0 <= k < i ==> c[k].addr != a
  {
    if c == [] || c[0].addr == a then 0 else 1 + Pos(c[1..], a)
  }

  function Find(c: seq<Entry>, a: Addr): Option<Entry> {
    if Pos(c, a) < |c| then Some(c[Pos(c, a)]) else None
  }

  /** An entry that an expire pass at `deadline` (now minus the ageing time) leaves,
      if any. */
  function Aged(e: Entry, deadline: int): Option<Entry> {
    if e.stamp > deadline then Some(e)
    else if e.uses == 1 then None
    else Some(e.(uses := e.uses - 1))
  }

  function AgedChain(c: seq<Entry>, deadline: int): seq<Entry> {
    if c == [] then []
    else
      var rest := AgedChain(c[1..], deadline);
      if Aged(c[0], deadline) == None then rest else [Aged(c[0], deadline).value] + rest
  }

  ghost predicate Unique(c: seq<Entry>) {
    forall i, j :: 0 <= i < j < |c| ==> c[i].addr != c[j].addr
  }

  ghost predicate Bucketed(c: seq<Entry>, h: nat, hash: Addr -> Bucket) {
    forall i :: 0 <= i < |c| ==> hash(c[i].addr) == h && c[i].uses >= 1
  }

  /** Every entry is in its key's bucket, no key occurs twice, and no entry is spent. */
  ghost predicate ChainOk(c: seq<Entry>, h: nat, hash: Addr -> Bucket) { Unique(c) && Bucketed(c, h, hash) }

  lemma PosAt(c: seq<Entry>, i: nat)
    requires i < |c| && Unique(c)
    ensures Pos(c, c[i].addr) == i
  {
  }

  lemma {:induction false} AgedFinds(c: seq<Entry>, deadline: int, a: Addr)
    requires Unique(c)
    ensures Find(AgedChain(c, deadline), a)
         == if Find(c, a) == None then None else Aged(Find(c, a).value, deadline)
    decreases |c|
  {
    if c != [] {
      AgedFinds(c[1..], deadline, a);
      assert Find(c, a) == if c[0].addr == a then Some(c[0]) else Find(c[1..], a);
      if c[0].addr == a {
        assert Find(c[1..], a) == None;
      }
    }
  }

  lemma {:induction false} AgedUnique(c: seq<Entry>, deadline: int)
    requires Unique(c)
    ensures Unique(AgedChain(c, deadline))
    decreases |c|
  {
    if c != [] {
      AgedUnique(c[1..], deadline);
      AgedFinds(c[1..], deadline, c[0].addr);
      var rest := AgedChain(c[1..], deadline);
      assert Pos(c[1..], c[0].addr) == |c[1..]|;
      assert Pos(rest, c[0].addr) == |rest|;
    }
  }

  lemma {:induction false} AgedBucketed(c: seq<Entry>, deadline: int, h: nat, hash: Addr -> Bucket)
    requires Bucketed(c, h, hash)
    ensures Bucketed(AgedChain(c, deadline), h, hash)
    decreases |c|
  {
    if c != [] {
      AgedBucketed(c[1..], deadline, h, hash);
      var r, rest := AgedChain(c, deadline), AgedChain(c[1..], deadline);
      if r != rest {
        assert r[0].addr == c[0].addr && r[1..] == rest;
        forall i | 0 <= i < |r| ensures hash(r[i].addr) == h && r[i].uses >= 1 {
          if i > 0 { assert r[i] == rest[i - 1]; }
        }
      }
    }
  }

  // ---------------------------------------------------------------------------
  // The table as a map from addresses to entries
  // ---------------------------------------------------------------------------

  /** The chains, and the function that chose the chain of each address. */
  datatype Table = Table(hash: Addr -> Bucket, chains: seq<seq<Entry>>)
  {
    function Chain(a: Addr): seq<Entry>
      requires |chains| == BUCKETS
    {
      chains[hash(a)]
    }

    function SetChain(a: Addr, c: seq<Entry>): Table
      requires |chains| == BUCKETS
    {
      this.(chains := chains[hash(a) := c])
    }
  }

  ghost predicate TableOk(t: Table) {
    |t.chains| == BUCKETS && forall h :: 0 <= h < BUCKETS ==> ChainOk(t.chains[h], h, t.hash)
  }

  function Get(t: Table, a: Addr): Option<Entry>
    requires |t.chains| == BUCKETS
  {
    Find(t.Chain(a), a)
  }

  /** Insert: refresh the entry of `a`, or link a new one at the head of its chain. */
  function Inserted(t: Table, a: Addr, mac: Mac, now: int): Table
    requires |t.chains| == BUCKETS
  {
    var c := t.Chain(a);
    var i := Pos(c, a);
    t.SetChain(a, if i < |c| then c[i := c[i].(mac := mac, stamp := now)] else [Entry(a, mac, now, 1)] + c)
  }

  /** Lookup: an entry that has not expired gains a use. */
  function LookedUp(t: Table, a: Addr, deadline: int): Table
    requires |t.chains| == BUCKETS
  {
    var c := t.Chain(a);
    var i := Pos(c, a);
    if i < |c| && c[i].stamp > deadline then t.SetChain(a, c[i := c[i].(uses := c[i].uses + 1)]) else t
  }

  /** The shortcut holder refreshes the stamp of its entry. */
  function Touched(t: Table, a: Addr, now: int): Table
    requires |t.chains| == BUCKETS
  {
    var c := t.Chain(a);
    var i := Pos(c, a);
    if i < |c| then t.SetChain(a, c[i := c[i].(stamp := now)]) else t
  }

  function AgedTable(t: Table, deadline: int): Table
    requires |t.chains| == BUCKETS
  {
    t.(chains := seq(BUCKETS, h requires 0 <= h < BUCKETS => AgedChain(t.chains[h], deadline)))
  }

  lemma FindAfterPut(c: seq<Entry>, i: nat, e: Entry, a: Addr)
    requires i < |c| && e.addr == c[i].addr && Unique(c)
    ensures Find(c[i := e], a) == if a == e.addr then Some(e) else Find(c, a)
  {
    var p := Pos(c, a);
    if p < |c| { PosAt(c[i := e], p); }
    if a == e.addr { PosAt(c[i := e], i); }
  }

  /** Replacing one entry changes the meaning of its own address only. */
  lemma PutMeaning(t: Table, a: Addr, e: Entry, x: Addr)
    requires TableOk(t) && Get(t, a).Some? && e.addr == a && e.uses >= 1
    ensures var t' := t.SetChain(a, t.Chain(a)[Pos(t.Chain(a), a) := e]);
            TableOk(t') && Get(t', x) == if x == a then Some(e) else Get(t, x)
  {
    var c, h := t.Chain(a), t.hash(a);
    var i := Pos(c, a);
    assert ChainOk(c, h, t.hash);
    assert ChainOk(c[i := e], h, t.hash);
    FindAfterPut(c, i, e, x);
  }

  /** The pointwise meaning of insert. */
  lemma InsertMeaning(t: Table, a: Addr, mac: Mac, now: int, x: Addr)
    requires TableOk(t)
    ensures TableOk(Inserted(t, a, mac, now))
    ensures Get(Inserted(t, a, mac, now), x)
         == if x != a then Get(t, x)
            else if Get(t, a) == None then Some(Entry(a, mac, now, 1))
            else Some(Get(t, a).value.(mac := mac, stamp := now))
  {
    var c, h := t.Chain(a), t.hash(a);
    assert ChainOk(c, h, t.hash);
    if Get(t, a).Some? {
      PutMeaning(t, a, Get(t, a).value.(mac := mac, stamp := now), x);
    } else {
      var c' := [Entry(a, mac, now, 1)] + c;
      assert c'[1..] == c;
      assert ChainOk(c', h, t.hash);
    }
  }

  /** The pointwise meaning of lookup. */
  lemma LookupMeaning(t: Table, a: Addr, deadline: int, x: Addr)
    requires TableOk(t)
    ensures TableOk(LookedUp(t, a, deadline))
    ensures Get(LookedUp(t, a, deadline), x)
         == if x == a && Get(t, a).Some? && Get(t, a).value.stamp > deadline
            then Some(Get(t, a).value.(uses := Get(t, a).value.uses + 1)) else Get(t, x)
  {
    var g := Get(t, a);
    if g.Some? {
      assert ChainOk(t.Chain(a), t.hash(a), t.hash);
      PutMeaning(t, a, g.value.(uses := g.value.uses + 1), x);
    }
  }

  lemma TouchMeaning(t: Table, a: Addr, now: int, x: Addr)
    requires TableOk(t)
    ensures TableOk(Touched(t, a, now))
    ensures Get(Touched(t, a, now), x)
         == if x == a && Get(t, a).Some? then Some(Get(t, a).value.(stamp := now)) else Get(t, x)
  {
    var g := Get(t, a);
    if g.Some? {
      assert ChainOk(t.Chain(a), t.hash(a), t.hash);
      PutMeaning(t, a, g.value.(stamp := now), x);
    }
  }

  /** The pointwise meaning of an expire pass. */
  lemma ExpireMeaning(t: Table, deadline: int, x: Addr)
    requires TableOk(t)
    ensures TableOk(AgedTable(t, deadline))
    ensures Get(AgedTable(t, deadline), x)
         == if Get(t, x) == None then None else Aged(Get(t, x).value, deadline)
  {
    var t' := AgedTable(t, deadline);
    forall h | 0 <= h < BUCKETS ensures ChainOk(t'.chains[h], h, t.hash) {
      assert ChainOk(t.chains[h], h, t.hash);
      AgedUnique(t.chains[h], deadline);
      AgedBucketed(t.chains[h], deadline, h, t.hash);
    }
    assert ChainOk(t.Chain(x), t.hash(x), t.hash);
    AgedFinds(t.Chain(x), deadline, x);
  }

  // ---------------------------------------------------------------------------
  // Runs
  // ---------------------------------------------------------------------------

  /** `now` and `deadline` differ by the ageing time, so a later call never has an
      earlier deadline.  `Shortcut` looks up the single-client entry; `Touch` is its
      holder refreshing it. */
  datatype Op =
    | Insert(a: Addr, mac: Mac, now: int)
    | Lookup(a: Addr, deadline: int)
    | Expire(deadline: int)
    | Shortcut(a: Addr)
    | Touch(now: int)
    | Cleanup

  datatype Bridge = Bridge(t: Table, scdb: Option<Addr>)

  ghost predicate BridgeOk(b: Bridge) {
    TableOk(b.t) && (b.scdb.Some? ==> Get(b.t, b.scdb.value).Some?)
  }

  function EmptyTable(hash: Addr -> Bucket): Table { Table(hash, seq(BUCKETS, _ => [])) }

  function Dropped(scdb: Option<Addr>, t: Table): Option<Addr>
    requires |t.chains| == BUCKETS
  {
    if scdb.Some? && Get(t, scdb.value) == None then None else scdb
  }

  ghost function Do(b: Bridge, op: Op): Bridge
    requires BridgeOk(b)
  {
    match op
    case Insert(a, mac, now) => b.(t := Inserted(b.t, a, mac, now))
    case Lookup(a, deadline) => b.(t := LookedUp(b.t, a, deadline))
    case Expire(deadline) => Bridge(AgedTable(b.t, deadline), Dropped(b.scdb, AgedTable(b.t, deadline)))
    case Shortcut(a) => b.(scdb := if Get(b.t, a).Some? then Some(a) else None)
    case Touch(now) => if b.scdb == None then b else b.(t := Touched(b.t, b.scdb.value, now))
    case Cleanup => Bridge(EmptyTable(b.t.hash), None)
  }

  /** Every operation keeps the chains in order and the shortcut on a live entry. */
  lemma DoKeepsOk(b: Bridge, op: Op)
    requires BridgeOk(b)
    ensures BridgeOk(Do(b, op))
  {
    match op
    case Insert(a, mac, now) =>
      InsertMeaning(b.t, a, mac, now, if b.scdb.Some? then b.scdb.value else a);
    case Lookup(a, deadline) =>
      LookupMeaning(b.t, a, deadline, if b.scdb.Some? then b.scdb.value else a);
    case Expire(deadline) =>
      ExpireMeaning(b.t, deadline, seq(17, _ => 0));
    case Touch(now) =>
      if b.scdb.Some? { TouchMeaning(b.t, b.scdb.value, now, b.scdb.value); }
    case _ =>
  }

  /** `bs` are the states of a run of `ops`. */
  ghost predicate Run(bs: seq<Bridge>, ops: seq<Op>) {
    && |bs| == |ops| + 1
    && (forall i :: 0 <= i < |bs| ==> BridgeOk(bs[i]))
    && (forall i :: 0 <= i < |ops| ==> bs[i + 1] == Do(bs[i], ops[i]))
  }

  /** Every run from a well-formed bridge exists and stays well formed. */
  lemma {:induction false} RunExists(b: Bridge, ops: seq<Op>) returns (bs: seq<Bridge>)
    requires BridgeOk(b)
    ensures Run(bs, ops) && bs[0] == b
    decreases |ops|
  {
    if ops == [] {
      bs := [b];
    } else {
      var n := |ops| - 1;
      var init := RunExists(b, ops[..n]);
      DoKeepsOk(init[n], ops[n]);
      bs := init + [Do(init[n], ops[n])];
      forall i | 0 <= i < |ops| ensures bs[i + 1] == Do(bs[i], ops[i]) {
        if i < n { assert ops[..n][i] == ops[i]; }
      }
    }
  }

  /** An expire pass, entry by entry: an unexpired one is left alone, an expired one loses
      a use, and is removed with its last. */
  lemma ExpireCases(t: Table, deadline: int, x: Addr)
    requires TableOk(t) && Get(t, x).Some?
    ensures var e, g := Get(t, x).value, Get(AgedTable(t, deadline), x);
            && (e.stamp > deadline ==> g == Some(e))
            && (e.stamp <= deadline && e.uses > 1 ==> g == Some(e.(uses := e.uses - 1)))
            && (e.stamp <= deadline && e.uses == 1 ==> g == None)
  {
    ExpireMeaning(t, deadline, x);
  }

  /** `op` keeps an entry with stamp `since` or later fresh: no pass has a deadline that
      late, and refreshes are no earlier. */
  predicate KeepsFresh(op: Op, since: int) {
    match op
    case Insert(_, _, now) => now >= since
    case Touch(now) => now >= since
    case Expire(deadline) => deadline < since
    case Cleanup => false
    case _ => true
  }

  lemma FreshStep(b: Bridge, op: Op, a: Addr, since: int)
    requires BridgeOk(b) && KeepsFresh(op, since) && Get(b.t, a).Some? && Get(b.t, a).value.stamp >= since
    ensures var g := Get(Do(b, op).t, a);
            g.Some? && g.value.stamp >= since && g.value.uses >= Get(b.t, a).value.uses
  {
    match op
    case Insert(x, mac, now) => InsertMeaning(b.t, x, mac, now, a);
    case Lookup(x, deadline) => LookupMeaning(b.t, x, deadline, a);
    case Expire(deadline) => ExpireCases(b.t, deadline, a);
    case Touch(now) => if b.scdb.Some? { TouchMeaning(b.t, b.scdb.value, now, a); }
    case _ =>
  }

  /** An entry that is younger than every deadline of a run is present at every point of
      it and never loses a use. */
  lemma {:induction false} FreshEntriesStay(bs: seq<Bridge>, ops: seq<Op>, a: Addr, n: nat)
    requires Run(bs, ops) && n <= |ops| && Get(bs[0].t, a).Some?
    requires forall i :: 0 <= i < |ops| ==> KeepsFresh(ops[i], Get(bs[0].t, a).value.stamp)
    ensures Get(bs[n].t, a).Some? && Get(bs[n].t, a).value.uses >= Get(bs[0].t, a).value.uses
    ensures Get(bs[n].t, a).value.stamp >= Get(bs[0].t, a).value.stamp
    decreases n
  {
    if n > 0 {
      FreshEntriesStay(bs, ops, a, n - 1);
      FreshStep(bs[n - 1], ops[n - 1], a, Get(bs[0].t, a).value.stamp);
    }
  }

  /** A shortcut set for a mapped address refreshes that address, and only that one; one
      set for any other refreshes nothing. */
  lemma ShortcutThenTouch(b: Bridge, a: Addr, now: int, x: Addr)
    requires BridgeOk(b)
    ensures var g, g' := Get(b.t, x), Get(Do(Do(b, Shortcut(a)), Touch(now)).t, x);
            g' == if x == a && g.Some? then Some(g.value.(stamp := now)) else g
  {
    DoKeepsOk(b, Shortcut(a));
    TouchMeaning(b.t, a, now, x);
  }

  lemma CleanupMeaning(b: Bridge, x: Addr)
    requires BridgeOk(b)
    ensures Get(Do(b, Cleanup).t, x) == None
  {
  }

  /** Number of expire passes among the first `n` operations. */
  function Passes(ops: seq<Op>, n: nat): nat
    requires n <= |ops|
  {
    if n == 0 then 0 else Passes(ops, n - 1) + (if ops[n - 1].Expire? then 1 else 0)
  }

  /** `op` neither refreshes `a` nor uses a deadline before `since`. */
  ghost predicate Ignores(b: Bridge, op: Op, a: Addr, since: int) {
    match op
    case Insert(x, _, _) => x != a
    case Lookup(_, deadline) => deadline >= since
    case Expire(deadline) => deadline >= since
    case Touch(_) => b.scdb != Some(a)
    case Cleanup => false
    case Shortcut(_) => true
  }

  /** What `n` expire passes leave of an expired entry. */
  function Fate(g: Option<Entry>, n: nat): Option<Entry> {
    if g.Some? && n < g.value.uses then Some(g.value.(uses := g.value.uses - n)) else None
  }

  lemma FateAdds(g: Option<Entry>, m: nat, n: nat)
    ensures Fate(Fate(g, m), n) == Fate(g, m + n)
  {
  }

  lemma UsesPositive(t: Table, a: Addr)
    requires TableOk(t) && Get(t, a).Some?
    ensures Get(t, a).value.uses >= 1
  {
    assert ChainOk(t.Chain(a), t.hash(a), t.hash);
  }

  /** One operation that ignores an expired entry takes a use off it exactly when it
      is an expire pass. */
  lemma IgnoredStep(b: Bridge, op: Op, a: Addr, since: int)
    requires BridgeOk(b) && Ignores(b, op, a, since)
    requires Get(b.t, a).Some? ==> Get(b.t, a).value.stamp <= since
    ensures Get(Do(b, op).t, a) == Fate(Get(b.t, a), if op.Expire? then 1 else 0)
  {
    if Get(b.t, a).Some? { UsesPositive(b.t, a); }
    match op
    case Insert(x, mac, now) => InsertMeaning(b.t, x, mac, now, a);
    case Lookup(x, deadline) => LookupMeaning(b.t, x, deadline, a);
    case Expire(deadline) => ExpireMeaning(b.t, deadline, a);
    case Touch(now) => if b.scdb.Some? { TouchMeaning(b.t, b.scdb.value, now, a); }
    case _ =>
  }

  /** An expired entry that is never refreshed is gone after exactly as many expire
      passes as it has uses, whatever else happens to the table meanwhile. */
  lemma {:induction false} ExpiresAfterItsUses(bs: seq<Bridge>, ops: seq<Op>, a: Addr, since: int, n: nat)
    requires Run(bs, ops) && n <= |ops|
    requires forall i :: 0 <= i < |ops| ==> Ignores(bs[i], ops[i], a, since)
    requires Get(bs[0].t, a).Some? && Get(bs[0].t, a).value.stamp <= since
    ensures Get(bs[n].t, a) == Fate(Get(bs[0].t, a), Passes(ops, n))
    decreases n
  {
    if n == 0 {
      UsesPositive(bs[0].t, a);
    } else {
      ExpiresAfterItsUses(bs, ops, a, since, n - 1);
      IgnoredStep(bs[n - 1], ops[n - 1], a, since);
      FateAdds(Get(bs[0].t, a), Passes(ops, n - 1), if ops[n - 1].Expire? then 1 else 0);
    }
  }

  // ---------------------------------------------------------------------------
  // An expire pass over one chain
  // ---------------------------------------------------------------------------

  /** Moving the head of `rest`, aged, to the end of the walked part. */
  lemma AgeOne(walked: seq<Entry>, rest: seq<Entry>, deadline: int)
    requires rest != []
    ensures var e := Aged(rest[0], deadline);
            walked + AgedChain(rest, deadline)
            == (if e == None then walked else walked + [e.value]) + AgedChain(rest[1..], deadline)
  {
  }

  /** The shortcut after an expire pass over one chain. */
  function ShortcutAfter(c: seq<Entry>, scdb: Option<Addr>, deadline: int): Option<Addr> {
    if c == [] then scdb
    else ShortcutAfter(c[1..], if scdb == Some(c[0].addr) && Aged(c[0], deadline) == None then None else scdb, deadline)
  }

  lemma {:induction false} NoShortcut(c: seq<Entry>, deadline: int)
    ensures ShortcutAfter(c, None, deadline) == None
    decreases |c|
  {
    if c != [] { NoShortcut(c[1..], deadline); }
  }

  lemma {:induction false} ShortcutMeaning(c: seq<Entry>, a: Addr, deadline: int)
    requires Unique(c)
    ensures ShortcutAfter(c, Some(a), deadline)
         == if Find(c, a).Some? && Aged(Find(c, a).value, deadline) == None then None else Some(a)
    decreases |c|
  {
    if c != [] {
      ShortcutMeaning(c[1..], a, deadline);
      if c[0].addr == a {
        assert Pos(c[1..], a) == |c[1..]|;
        NoShortcut(c[1..], deadline);
      } else {
        assert Find(c, a) == Find(c[1..], a);
      }
    }
  }

  /** The pass over chain `h` drops the shortcut exactly when its entry was there
      and is removed. */
  lemma ShortcutInChain(t: Table, h: nat, a: Addr, deadline: int)
    requires TableOk(t) && h < BUCKETS && Get(t, a).Some?
    ensures ShortcutAfter(t.chains[h], None, deadline) == None
    ensures ShortcutAfter(t.chains[h], Some(a), deadline)
         == if h == t.hash(a) then Dropped(Some(a), AgedTable(t, deadline)) else Some(a)
  {
    var c := t.chains[h];
    assert ChainOk(c, h, t.hash);
    NoShortcut(c, deadline);
    ShortcutMeaning(c, a, deadline);
    ExpireMeaning(t, deadline, a);
    if h != t.hash(a) {
      assert Pos(c, a) == |c|;
    }
  }

  /** Chain `b` after an expire pass over the chains below `h`. */
  function AgedBelow(t: Table, h: nat, b: nat, deadline: int): seq<Entry>
    requires b < |t.chains|
  {
    if b < h then AgedChain(t.chains[b], deadline) else t.chains[b]
  }

  /** The shortcut after an expire pass over the chains below `h`. */
  function ShortcutBelow(t: Table, s: Option<Addr>, h: nat, deadline: int): Option<Addr>
    requires |t.chains| == BUCKETS
  {
    if s.Some? && t.hash(s.value) < h then Dropped(s, AgedTable(t, deadline)) else s
  }

  lemma ShortcutTurn(t: Table, s: Option<Addr>, h: nat, deadline: int)
    requires TableOk(t) && h < BUCKETS && (s.Some? ==> Get(t, s.value).Some?)
    ensures ShortcutAfter(t.chains[h], ShortcutBelow(t, s, h, deadline), deadline) == ShortcutBelow(t, s, h + 1, deadline)
  {
    if s.Some? {
      ShortcutInChain(t, h, s.value, deadline);
    } else {
      NoShortcut(t.chains[h], deadline);
    }
  }
}
