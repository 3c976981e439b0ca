/** The hash chains of the NAT2.5 table in memory (aic_br_ext.c): entries linked by
    `next_hash` and by `pprev_hash`, a pointer back to the cell that points at the
    entry, which is a bucket head or the `next_hash` of another entry.

    `Link` and `Unlink` change those cells in place; every operation of the bridge is
    proved to do to the chains what `Nat25Table.Do` does to the table. */
module Nat25Chains {
  import opened Machine
  import opened Nat25Table

  /** What `pprev_hash` points at. */
  datatype Cell = Nowhere | HeadOf(h: nat) | NextOf(n: DbEntry)

  class DbEntry {
    const addr: Addr
    var mac: Mac
    var stamp: int
    var uses: int
    var next: DbEntry?
    var pprev: Cell

    constructor (addr: Addr, mac: Mac, stamp: int)
      ensures this.addr == addr && Value() == Entry(addr, mac, stamp, 1)
    {
      this.addr, this.mac, this.stamp, uses := addr, mac, stamp, 1;
      next, pprev := null, Nowhere;
    }

    method Set(mac: Mac, stamp: int, uses: int)
      modifies this`mac, this`stamp, this`uses
      ensures Value() == Entry(addr, mac, stamp, uses)
    {
      this.mac, this.stamp, this.uses := mac, stamp, uses;
    }

    ghost function Value(): Entry
      reads this
    {
      Entry(addr, mac, stamp, uses)
    }
  }

  function NodeAt(c: seq<DbEntry>, k: nat): DbEntry? { if k < |c| then c[k] else null }

  /** The cell that points at entry `k` of the chain of bucket `h`. */
  function CellBefore(c: seq<DbEntry>, k: nat, h: nat): Cell
    requires k <= |c|
  {
    if k == 0 then HeadOf(h) else NextOf(c[k - 1])
  }

  /** `c` is the chain that starts at `head` in bucket `h`. */
  ghost predicate Linked(head: DbEntry?, c: seq<DbEntry>, h: nat)
    reads c
  {
    && head == NodeAt(c, 0)
    && (forall k {:trigger c[k].next} :: 0 <= k < |c| ==> c[k].next == NodeAt(c, k + 1))
    && (forall k {:trigger c[k].pprev} :: 0 <= k < |c| ==> c[k].pprev == CellBefore(c, k, h))
  }

  /** The entries of `c` hold the values `vs`. */
  ghost predicate Hold(c: seq<DbEntry>, vs: seq<Entry>)
    reads c
  {
    |c| == |vs| && forall k {:trigger c[k].Value()} {:trigger vs[k]} :: 0 <= k < |c| ==> c[k].Value() == vs[k]
  }

  ghost predicate Distinct(c: seq<DbEntry>) { forall j, k :: 0 <= j < k < |c| ==> c[j] != c[k] }

  /** Entries stand in the bucket of their key, and no key occurs twice.  Keys never
      change, so this does not depend on the heap. */
  ghost predicate Keyed(c: seq<DbEntry>, h: nat, hash: Addr -> Bucket) {
    && (forall k :: 0 <= k < |c| ==> hash(c[k].addr) == h)
    && (forall j, k :: 0 <= j < k < |c| ==> c[j].addr != c[k].addr)
  }

  function Without<T>(c: seq<T>, k: nat): (c': seq<T>)
    requires k < |c|
    ensures |c'| == |c| - 1 && forall j :: 0 <= j < |c'| ==> c'[j] == if j < k then c[j] else c[j + 1]
  {
    c[..k] + c[k + 1..]
  }

  /** Chains with different keys share no entry. */
  lemma KeysApart(c: seq<DbEntry>, h: nat, d: seq<DbEntry>, g: nat, hash: Addr -> Bucket)
    requires Keyed(c, h, hash) && Keyed(d, g, hash)
    ensures Distinct(c)
    ensures h != g ==> forall x :: x in c ==> x !in d
  {
  }

  lemma KeyedCons(ent: DbEntry, c: seq<DbEntry>, h: nat, hash: Addr -> Bucket)
    requires Keyed(c, h, hash) && hash(ent.addr) == h
    requires forall k :: 0 <= k < |c| ==> c[k].addr != ent.addr
    ensures Keyed([ent] + c, h, hash)
  {
  }

  lemma KeyedWithout(c: seq<DbEntry>, h: nat, hash: Addr -> Bucket, k: nat)
    requires Keyed(c, h, hash) && k < |c|
    ensures Keyed(Without(c, k), h, hash)
    ensures forall x :: x in Without(c, k) ==> x in c
  {
  }

  lemma HoldWithout(c: seq<DbEntry>, vs: seq<Entry>, k: nat)
    requires Hold(c, vs) && k < |c|
    ensures Hold(Without(c, k), Without(vs, k))
  {
  }

  /** Entry `k` of the chain of bucket `h`. */
  datatype Place = Place(h: nat, k: nat)

  class Nat25 {
    const hash: Addr -> Bucket
    const nethash: array<DbEntry?>
    var scdb: DbEntry?
    /** The chains, and what their entries hold. */
    ghost var chains: seq<seq<DbEntry>>
    ghost var held: seq<seq<Entry>>
    ghost var repr: set<DbEntry>

    ghost predicate Owned()
      reads this`chains, this`held, this`repr
    {
      && |chains| == |held| == BUCKETS == nethash.Length
      && (forall h :: 0 <= h < BUCKETS ==> |chains[h]| == |held[h]|)
      && (forall h, k :: 0 <= h < BUCKETS && 0 <= k < |chains[h]| ==> chains[h][k] in repr)
    }

    /** The chains are linked, and filled, as the ghost sequences say. */
    ghost predicate Shape()
      reads this`chains, this`held, this`repr, nethash, repr
    {
      Owned() && forall h :: 0 <= h < BUCKETS ==> ChainAt(h)
    }

    ghost predicate ChainAt(h: nat)
      requires Owned() && h < BUCKETS
      reads this`chains, this`held, this`repr, nethash, repr
    {
      Keyed(chains[h], h, hash) && Linked(nethash[h], chains[h], h) && Hold(chains[h], held[h])
    }

    ghost function ScdbAddr(): Option<Addr>
      reads this`scdb
    {
      if scdb == null then None else Some(scdb.addr)
    }

    /** The shortcut, if any, points at a listed entry. */
    ghost predicate ScdbListed()
      requires Owned()
      reads this`chains, this`held, this`repr, this`scdb
    {
      scdb != null ==> scdb in chains[hash(scdb.addr)]
    }

    ghost function View(): Bridge
      reads this
    {
      Bridge(Table(hash, held), ScdbAddr())
    }

    ghost predicate Valid()
      reads this, nethash, repr
    {
      Shape() && ScdbListed() && BridgeOk(View())
    }

    /** `__network_hash_link`, seen from the chain `c` that it extends. */
    static method LinkIn(nethash: array<DbEntry?>, ent: DbEntry, h: nat, ghost c: seq<DbEntry>)
      requires h < nethash.Length && Linked(nethash[h], c, h) && ent !in c && Distinct(c)
      modifies nethash, ent`next, ent`pprev, c`pprev
      ensures Linked(nethash[h], [ent] + c, h)
      ensures forall b :: 0 <= b < nethash.Length && b != h ==> nethash[b] == old(nethash[b])
    {
      ent.next := nethash[h];
      if ent.next != null {
        assert ent.next == c[0];
        ent.next.pprev := NextOf(ent);
      }
      nethash[h] := ent;
      ent.pprev := HeadOf(h);
    }

    /** `__network_hash_unlink`, seen from the chain `c` that it shortens: whatever cell
        points at the entry is redirected. */
    static method UnlinkIn(nethash: array<DbEntry?>, ent: DbEntry, ghost h: nat, ghost c: seq<DbEntry>, ghost k: nat)
      requires h < nethash.Length && Linked(nethash[h], c, h) && Distinct(c)
      requires k < |c| && c[k] == ent
      modifies nethash, c`next, c`pprev
      ensures Linked(nethash[h], Without(c, k), h) && ent.next == null && ent.pprev == Nowhere
      ensures forall b :: 0 <= b < nethash.Length && b != h ==> nethash[b] == old(nethash[b])
    {
      assert c[k].pprev == CellBefore(c, k, h) && c[k].next == NodeAt(c, k + 1);
      match ent.pprev {
        case HeadOf(b) => nethash[b] := ent.next;
        case NextOf(p) => p.next := ent.next;
      }
      if ent.next != null {
        ent.next.pprev := ent.pprev;
      }
      ent.next := null;
      ent.pprev := Nowhere;
      ghost var c' := Without(c, k);
      forall j | 0 <= j < |c'| ensures c'[j].next == NodeAt(c', j + 1) && c'[j].pprev == CellBefore(c', j, h) {
        ghost var i := if j < k then j else j + 1;
        assert c'[j] == c[i] && c[i] != ent;
        assert old(c[i].next) == NodeAt(c, i + 1) && old(c[i].pprev) == CellBefore(c, i, h);
        assert c[i].next == if i + 1 == k then NodeAt(c, k + 1) else NodeAt(c, i + 1);
        assert c[i].pprev == if i == k + 1 then CellBefore(c, k, h) else CellBefore(c, i, h);
      }
    }

    /** `__network_hash_link`: only the chain of bucket `h` changes. */
    method Link(ent: DbEntry, h: nat)
      requires Shape() && h < BUCKETS && hash(ent.addr) == h
      requires forall k :: 0 <= k < |chains[h]| ==> chains[h][k].addr != ent.addr
      modifies this`chains, this`held, this`repr, nethash, ent`next, ent`pprev, repr`pprev
      ensures Shape() && repr == old(repr) + {ent}
      ensures chains == old(chains)[h := [ent] + old(chains)[h]]
      ensures held == old(held)[h := [ent.Value()] + old(held)[h]]
    {
      assert ChainAt(h);
      KeysApart(chains[h], h, chains[h], h, hash);
      LinkIn(nethash, ent, h, chains[h]);
      chains := chains[h := [ent] + chains[h]];
      held := held[h := [ent.Value()] + held[h]];
      repr := repr + {ent};
      EntryLinked(h);
    }

    twostate lemma EntryLinked(h: nat)
      requires old(Shape()) && h < BUCKETS == |chains| == |held| && |chains[h]| > 0 && repr == old(repr) + {chains[h][0]}
      requires chains == old(chains)[h := [chains[h][0]] + old(chains)[h]]
      requires held == old(held)[h := [chains[h][0].Value()] + old(held)[h]]
      requires hash(chains[h][0].addr) == h
      requires forall k :: 0 <= k < |old(chains)[h]| ==> old(chains)[h][k].addr != chains[h][0].addr
      requires Linked(nethash[h], chains[h], h)
      requires forall b :: 0 <= b < BUCKETS && b != h ==> nethash[b] == old(nethash[b])
      requires forall x :: x in old(repr) ==> x.Value() == old(x.Value())
      requires forall x :: x in old(repr) && hash(x.addr) != h ==> x.next == old(x.next) && x.pprev == old(x.pprev)
      ensures Shape()
    {
      var ent, c := chains[h][0], old(chains)[h];
      assert old(ChainAt(h));
      KeyedCons(ent, c, h, hash);
      assert Hold([ent] + c, [ent.Value()] + old(held)[h]);
      OneChainChanged(h);
    }

    /** `__network_hash_unlink`: only the chain that held the entry changes. */
    method Unlink(ent: DbEntry, ghost h: nat, ghost k: nat)
      requires Shape() && h < BUCKETS && k < |chains[h]| && chains[h][k] == ent
      modifies this`chains, this`held, nethash, repr`next, repr`pprev
      ensures Shape() && ent.next == null && ent.pprev == Nowhere
      ensures chains == old(chains)[h := Without(old(chains)[h], k)]
      ensures held == old(held)[h := Without(old(held)[h], k)]
    {
      assert ChainAt(h);
      KeysApart(chains[h], h, chains[h], h, hash);
      UnlinkIn(nethash, ent, h, chains[h], k);
      chains := chains[h := Without(chains[h], k)];
      held := held[h := Without(held[h], k)];
      EntryUnlinked(Place(h, k));
    }

    twostate lemma EntryUnlinked(p: Place)
      requires old(Shape()) && repr == old(repr) && p.h < BUCKETS && p.k < |old(chains)[p.h]|
      requires chains == old(chains)[p.h := Without(old(chains)[p.h], p.k)]
      requires held == old(held)[p.h := Without(old(held)[p.h], p.k)]
      requires Linked(nethash[p.h], chains[p.h], p.h)
      requires forall b :: 0 <= b < BUCKETS && b != p.h ==> nethash[b] == old(nethash[b])
      requires forall x :: x in repr ==> x.Value() == old(x.Value())
      requires forall x :: x in repr && x !in old(chains)[p.h] ==> x.next == old(x.next) && x.pprev == old(x.pprev)
      ensures Shape()
    {
      var c, vs := old(chains)[p.h], old(held)[p.h];
      assert old(ChainAt(p.h));
      KeyedWithout(c, p.h, hash, p.k);
      assert Hold(c, vs);
      HoldWithout(c, vs, p.k);
      OneChainChanged(p.h);
    }

    /** Overwrite what entry `k` of chain `h` holds. */
    method Write(ent: DbEntry, mac: Mac, stamp: int, uses: int, ghost h: nat, ghost k: nat)
      requires Shape() && h < BUCKETS && k < |chains[h]| && chains[h][k] == ent
      modifies this`held, ent`mac, ent`stamp, ent`uses
      ensures Shape() && ent.Value() == Entry(ent.addr, mac, stamp, uses)
      ensures held == old(held)[h := old(held)[h][k := Entry(ent.addr, mac, stamp, uses)]]
    {
      ent.Set(mac, stamp, uses);
      held := held[h := held[h][k := ent.Value()]];
      ValueWritten(Place(h, k));
    }

    twostate lemma ValueWritten(p: Place)
      requires old(Shape()) && chains == old(chains) && repr == old(repr) && p.h < BUCKETS && p.k < |chains[p.h]|
      requires forall b :: 0 <= b < BUCKETS ==> nethash[b] == old(nethash[b])
      requires forall x :: x in repr ==> x.next == old(x.next) && x.pprev == old(x.pprev)
      requires forall x :: x in repr && x != chains[p.h][p.k] ==> x.Value() == old(x.Value())
      requires held == old(held)[p.h := old(held)[p.h][p.k := chains[p.h][p.k].Value()]]
      ensures Shape()
    {
      var c := chains[p.h];
      assert old(ChainAt(p.h)) && hash(c[p.k].addr) == p.h;
      KeysApart(c, p.h, c, p.h, hash);
      assert Hold(c, held[p.h]);
      StaysLinked(p.h);
      OneChainChanged(p.h);
    }

    /** A chain none of whose cells was written is still linked. */
    twostate lemma StaysLinked(b: nat)
      requires b < BUCKETS == nethash.Length && |chains| == |old(chains)| == BUCKETS && chains[b] == old(chains)[b]
      requires nethash[b] == old(nethash[b]) && old(Linked(nethash[b], chains[b], b))
      requires forall x :: x in chains[b] ==> x.next == old(x.next) && x.pprev == old(x.pprev)
      ensures Linked(nethash[b], chains[b], b)
    {
      forall k | 0 <= k < |chains[b]|
        ensures chains[b][k].next == old(chains[b][k].next) && chains[b][k].pprev == old(chains[b][k].pprev)
      {
        assert chains[b][k] in chains[b];
      }
    }

    /** Changing the cells and values of one chain leaves the others as they were. */
    twostate lemma OneChainChanged(h: nat)
      requires old(Shape()) && Owned() && h < BUCKETS && ChainAt(h)
      requires chains == old(chains)[h := chains[h]] && held == old(held)[h := held[h]]
      requires forall b :: 0 <= b < BUCKETS && b != h ==> nethash[b] == old(nethash[b])
      requires forall x :: x in old(repr) && hash(x.addr) != h ==>
                 x.next == old(x.next) && x.pprev == old(x.pprev) && x.Value() == old(x.Value())
      ensures Shape()
    {
      forall b | 0 <= b < BUCKETS && b != h ensures ChainAt(b) {
        assert old(ChainAt(b));
        StaysLinked(b);
      }
    }

    // -------------------------------------------------------------------------
    // Operations of the bridge
    // -------------------------------------------------------------------------

    constructor ()
      ensures Valid() && fresh(nethash) && View() == Bridge(EmptyTable(Hash), None) && repr == {}
    {
      hash := Hash;
      nethash := new DbEntry?[BUCKETS](_ => null);
      scdb := null;
      chains, held, repr := seq(BUCKETS, _ => []), EmptyTable(Hash).chains, {};
    }

    /** The walk along one chain. */
    method Walk(h: nat, a: Addr) returns (db: DbEntry?, ghost k: nat)
      requires Shape() && h < BUCKETS
      ensures db == NodeAt(chains[h], Pos(held[h], a))
      ensures k == Pos(held[h], a)
    {
      assert ChainAt(h);
      db, k := nethash[h], 0;
      while db != null
        invariant k <= |chains[h]| && db == NodeAt(chains[h], k)
        invariant forall j :: 0 <= j < k ==> held[h][j].addr != a
        decreases |chains[h]| - k
      {
        assert chains[h][k].Value() == held[h][k];
        if db.addr == a {
          break;
        }
        db, k := db.next, k + 1;
      }
      PosIs(held[h], a, k);
    }

    /** An entry found by the walk, as a value. */
    lemma Found(h: nat, a: Addr, db: DbEntry?, k: nat)
      requires Shape() && h < BUCKETS && h == hash(a) && k == Pos(held[h], a) && db == NodeAt(chains[h], k)
      ensures db != null <==> Get(View().t, a).Some?
      ensures db != null ==> k < |chains[h]| && db == chains[h][k] && db.addr == a
                             && db.Value() == held[h][k] && Get(View().t, a) == Some(db.Value())
      ensures db == null ==> forall j :: 0 <= j < |chains[h]| ==> chains[h][j].addr != a
    {
      assert ChainAt(h);
      forall j | 0 <= j < |chains[h]| ensures chains[h][j].Value() == held[h][j] {
      }
    }

    /** `__nat25_db_network_insert`; `alloc` is the success of the allocation. */
    method NetworkInsert(mac: Mac, a: Addr, now: int, alloc: bool)
      requires Valid()
      modifies this`chains, this`held, this`repr, nethash, repr
      ensures Valid() && fresh(repr - old(repr))
      ensures View() == if alloc || Get(old(View()).t, a).Some? then Do(old(View()), Insert(a, mac, now)) else old(View())
    {
      DoKeepsOk(View(), Insert(a, mac, now));
      var h := hash(a);
      var db, k := Walk(h, a);
      Found(h, a, db, k);
      if db != null {
        Write(db, mac, now, db.uses, h, k);
      } else if alloc {
        var ent := new DbEntry(a, mac, now);
        Link(ent, h);
      }
    }

    /** `__nat25_db_network_lookup_and_replace`: `dst` is the destination of the frame
        afterwards. */
    method LookupAndReplace(dst0: Mac, a: Addr, deadline: int) returns (dst: Mac, found: bool)
      requires Valid()
      modifies this`held, repr
      ensures Valid() && View() == Do(old(View()), Lookup(a, deadline))
      ensures found <==> Get(old(View()).t, a).Some?
      ensures dst == var g := Get(old(View()).t, a);
                     if g.Some? && g.value.stamp > deadline then g.value.mac else dst0
    {
      DoKeepsOk(View(), Lookup(a, deadline));
      var h := hash(a);
      var db, k := Walk(h, a);
      Found(h, a, db, k);
      dst, found := dst0, db != null;
      if db != null && db.stamp > deadline {
        dst := db.mac;
        Use(db, deadline, h, k);
      }
    }

    /** One more use of an entry that was found and has not expired. */
    method Use(db: DbEntry, deadline: int, ghost h: nat, ghost k: nat)
      requires Shape() && h < BUCKETS && h == hash(db.addr) && k == Pos(held[h], db.addr)
      requires k < |chains[h]| && chains[h][k] == db && db.Value() == held[h][k] && db.stamp > deadline
      modifies this`held, db`mac, db`stamp, db`uses
      ensures Shape() && held == LookedUp(old(View()).t, db.addr, deadline).chains
    {
      Write(db, db.mac, db.stamp, db.uses + 1, h, k);
    }

    /** `scdb_findEntry`. */
    method FindShortcut(a: Addr)
      requires Valid()
      modifies this`scdb
      ensures Valid() && View() == Do(old(View()), Shortcut(a))
    {
      var h := hash(a);
      var db, k := Walk(h, a);
      Found(h, a, db, k);
      scdb := db;
    }

    /** The transmit path refreshes the entry that the shortcut points at. */
    method TouchShortcut(now: int)
      requires Valid()
      modifies this`held, repr
      ensures Valid() && View() == Do(old(View()), Touch(now))
    {
      DoKeepsOk(View(), Touch(now));
      if scdb != null {
        ghost var h := hash(scdb.addr);
        ghost var k := Index(scdb);
        Write(scdb, scdb.mac, now, scdb.uses, h, k);
      }
    }

    /** Where a listed entry stands. */
    lemma Index(db: DbEntry) returns (k: nat)
      requires Shape() && db in chains[hash(db.addr)]
      ensures k < |chains[hash(db.addr)]| && chains[hash(db.addr)][k] == db
      ensures k == Pos(held[hash(db.addr)], db.addr) && db.Value() == held[hash(db.addr)][k]
    {
      var h := hash(db.addr);
      assert ChainAt(h);
      k :| 0 <= k < |chains[h]| && chains[h][k] == db;
      forall j | 0 <= j <= k ensures held[h][j] == chains[h][j].Value() {
      }
      PosIs(held[h], db.addr, k);
    }

    /** One entry of an expire pass: its use is taken off and, if that was the last
        one, it is unlinked, and the shortcut to it dropped. */
    method AgeEntry(f: DbEntry, deadline: int, ghost h: nat, ghost k: nat) returns (kept: bool)
      requires Shape() && ScdbListed() && h < BUCKETS && k < |chains[h]| && chains[h][k] == f
      modifies this`chains, this`held, this`scdb, nethash, repr
      ensures Shape() && ScdbListed()
      ensures kept <==> Aged(old(held)[h][k], deadline).Some?
      ensures kept ==> chains == old(chains) && scdb == old(scdb)
                       && held == old(held)[h := old(held)[h][k := Aged(old(held)[h][k], deadline).value]]
      ensures !kept ==> chains == old(chains)[h := Without(old(chains)[h], k)]
                        && held == old(held)[h := Without(old(held)[h], k)]
                        && scdb == if old(ScdbAddr()) == Some(old(held)[h][k].addr) then null else old(scdb)
      ensures f.next == if kept then old(f.next) else null
    {
      assert ChainAt(h) && chains[h][k].Value() == held[h][k];
      kept := true;
      assert held[h][k := f.Value()] == held[h];
      assert held[h := held[h]] == held;
      if f.stamp <= deadline {
        Write(f, f.mac, f.stamp, f.uses - 1, h, k);
        if f.uses == 0 {
          kept := false;
          SameKey(h, k);
          InWithout(chains[h], k);
          if scdb == f {
            scdb := null;
          }
          Unlink(f, h, k);
        }
      }
    }

    /** The shortcut has the key of a listed entry only if it is that entry. */
    lemma SameKey(h: nat, k: nat)
      requires Shape() && ScdbListed() && h < BUCKETS && k < |chains[h]|
      ensures ScdbAddr() == Some(chains[h][k].addr) <==> scdb == chains[h][k]
    {
      assert ChainAt(h);
    }

    /** The pass over one chain, in place. */
    method AgeChain(h: nat, deadline: int)
      requires Shape() && ScdbListed() && h < BUCKETS
      modifies this`chains, this`held, this`scdb, nethash, repr
      ensures Shape() && ScdbListed()
      ensures held == old(held)[h := AgedChain(old(held)[h], deadline)]
      ensures ScdbAddr() == ShortcutAfter(old(held)[h], old(ScdbAddr()), deadline)
    {
      assert ChainAt(h);
      var f := nethash[h];
      ghost var k: nat := 0;
      assert held[h][..0] + AgedChain(held[h][0..], deadline) == AgedChain(held[h], deadline) && held[h][0..] == held[h];
      while f != null
        invariant Shape() && ScdbListed() && held == old(held)[h := held[h]]
        invariant k <= |chains[h]| && f == NodeAt(chains[h], k)
        invariant held[h][..k] + AgedChain(held[h][k..], deadline) == AgedChain(old(held)[h], deadline)
        invariant ShortcutAfter(held[h][k..], ScdbAddr(), deadline)
               == ShortcutAfter(old(held)[h], old(ScdbAddr()), deadline)
        decreases |chains[h]| - k
      {
        f, k := AgeTurn(f, deadline, h, k);
      }
      assert held[h][..k] + AgedChain(held[h][k..], deadline) == held[h];
    }

    /** One turn of that loop: what the pass will leave stays the same. */
    method AgeTurn(f: DbEntry, deadline: int, ghost h: nat, ghost k: nat) returns (g: DbEntry?, ghost k': nat)
      requires Shape() && ScdbListed() && h < BUCKETS && k < |chains[h]| && chains[h][k] == f
      modifies this`chains, this`held, this`scdb, nethash, repr
      ensures Shape() && ScdbListed() && held == old(held)[h := held[h]]
      ensures k' <= |chains[h]| && g == NodeAt(chains[h], k') && |chains[h]| - k' < |old(chains)[h]| - k
      ensures held[h][..k'] + AgedChain(held[h][k'..], deadline)
           == old(held)[h][..k] + AgedChain(old(held)[h][k..], deadline)
      ensures ShortcutAfter(held[h][k'..], ScdbAddr(), deadline)
           == ShortcutAfter(old(held)[h][k..], old(ScdbAddr()), deadline)
    {
      assert ChainAt(h) && chains[h][k].next == NodeAt(chains[h], k + 1);
      g := f.next;
      AgeAt(held[h], k, deadline);
      var kept := AgeEntry(f, deadline, h, k);
      k' := if kept then k + 1 else k;
    }

    /** `nat25_db_expire`. */
    method DbExpire(deadline: int)
      requires Valid()
      modifies this`chains, this`held, this`scdb, nethash, repr
      ensures Valid() && View() == Do(old(View()), Expire(deadline))
    {
      ghost var t, s := View().t, ScdbAddr();
      DoKeepsOk(View(), Expire(deadline));
      for h := 0 to BUCKETS
        invariant Shape() && ScdbListed() && ExpiredBelow(t, s, h, deadline)
      {
        ExpireBucket(h, deadline, t, s);
      }
      assert held == AgedTable(t, deadline).chains;
    }

    /** The pass has dealt with the buckets below `h` of table `t` with shortcut `s`. */
    ghost predicate ExpiredBelow(t: Table, s: Option<Addr>, h: nat, deadline: int)
      requires |t.chains| == BUCKETS
      reads this`held, this`scdb
    {
      && |held| == BUCKETS
      && (forall b :: 0 <= b < BUCKETS ==> held[b] == AgedBelow(t, h, b, deadline))
      && ScdbAddr() == ShortcutBelow(t, s, h, deadline)
    }

    /** One bucket of the pass. */
    method ExpireBucket(h: nat, deadline: int, ghost t: Table, ghost s: Option<Addr>)
      requires Shape() && ScdbListed() && h < BUCKETS
      requires TableOk(t) && (s.Some? ==> Get(t, s.value).Some?) && ExpiredBelow(t, s, h, deadline)
      modifies this`chains, this`held, this`scdb, nethash, repr
      ensures Shape() && ScdbListed() && ExpiredBelow(t, s, h + 1, deadline)
    {
      ShortcutTurn(t, s, h, deadline);
      AgeChain(h, deadline);
    }

    /** `nat25_db_cleanup`. */
    method DbCleanup()
      requires Valid()
      modifies this`chains, this`held, this`scdb, nethash, repr
      ensures Valid() && View() == Do(old(View()), Cleanup)
    {
      for h := 0 to BUCKETS
        invariant Shape() && ScdbListed() && forall b :: 0 <= b < h ==> chains[b] == []
      {
        EmptyChain(h);
      }
      assert held == EmptyTable(hash).chains;
    }

    method EmptyChain(h: nat)
      requires Shape() && ScdbListed() && h < BUCKETS
      modifies this`chains, this`held, this`scdb, nethash, repr
      ensures Shape() && ScdbListed() && chains == old(chains)[h := []]
    {
      assert ChainAt(h);
      var f := nethash[h];
      while f != null
        invariant Shape() && ScdbListed() && chains == old(chains)[h := chains[h]] && f == NodeAt(chains[h], 0)
        decreases |chains[h]|
      {
        assert ChainAt(h) && chains[h][0].next == NodeAt(chains[h], 1);
        var g := f.next;
        InWithout(chains[h], 0);
        if scdb == f {
          scdb := null;
        }
        Unlink(f, h, 0);
        f := g;
      }
    }
  }

  lemma InWithout<T>(c: seq<T>, k: nat)
    requires k < |c|
    ensures forall x :: x in c && x != c[k] ==> x in Without(c, k)
  {
    forall x | x in c && x != c[k] ensures x in Without(c, k) {
      var j :| 0 <= j < |c| && c[j] == x;
      assert Without(c, k)[if j < k then j else j - 1] == x;
    }
  }

  /** Entry `k` of a chain in an expire pass that has dealt with those before it. */
  lemma AgeAt(vs: seq<Entry>, k: nat, deadline: int)
    requires k < |vs|
    ensures var e := Aged(vs[k], deadline);
            var vs', k' := if e.Some? then vs[k := e.value] else Without(vs, k), if e.Some? then k + 1 else k;
            && vs'[..k'] + AgedChain(vs'[k'..], deadline) == vs[..k] + AgedChain(vs[k..], deadline)
            && vs'[k'..] == vs[k..][1..]
  {
    var e := Aged(vs[k], deadline);
    AgeOne(vs[..k], vs[k..], deadline);
    if e.Some? {
      assert vs[k := e.value][..k + 1] == vs[..k] + [e.value] && vs[k := e.value][k + 1..] == vs[k..][1..];
    } else {
      assert Without(vs, k)[..k] == vs[..k] && Without(vs, k)[k..] == vs[k..][1..];
    }
  }

  lemma PosIs(c: seq<Entry>, a: Addr, k: nat)
    requires k <= |c| && (k < |c| ==> c[k].addr == a) && forall j :: 0 <= j < k ==> c[j].addr != a
    ensures Pos(c, a) == k
  {
  }
}
