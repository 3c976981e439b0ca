/** Reassembly of received USB packets (aicwf_usb.c).

    A packet longer than one transfer arrives as maximal fragments; the completion
    handlers of the data and of the message endpoint collect them with the same
    code.  `msg` selects the message endpoint, which accepts no data packets. */
module RxReassembly {
  import opened Machine

  const MAX_PKT: nat := 2048
  const RX_HEADER: nat := 60
  const TYPE_CMD_RSP := 0x11
  const TYPE_DATA_CFM := 0x12

  /** A completed transfer: the whole buffer, of which `len` bytes arrived. */
  datatype Urb = Urb(buf: seq<byte>, len: nat)
  {
    predicate Valid() { |buf| == MAX_PKT && 1 <= len <= MAX_PKT }

    function Data(): seq<byte>
      requires len <= |buf|
    {
      buf[..len]
    }
  }

  /** The reassembly fields; `skb` is absent when no packet is under way. */
  datatype Assembly = Assembly(skb: Option<seq<byte>>, totalLen: nat, curLen: nat, totalFrags: nat, curFrags: nat)

  const IDLE: Assembly := Assembly(None, 0, 0, 0, 0)

  /** `ALIGN(x, 4)` and `ALIGN(x, 2048)`. */
  function Align4(x: nat): nat { (x + 3) / 4 * 4 }

  function Align2048(x: nat): nat { (x + 2047) / 2048 * 2048 }

  /** Number of transfers of a packet. */
  function Frags(total: nat): nat { Align2048(total) / 2048 }

  lemma FragsBetween(total: nat, k: nat)
    ensures k * 2048 < total <= k * 2048 + 2048 ==> Frags(total) == k + 1
    ensures k * 2048 + 2048 < total ==> Frags(total) > k + 1
  {
  }

  function Len16(lo: int, hi: int): nat
    requires 0 <= lo && 0 <= hi
  {
    lo + 256 * hi
  }

  /** Total length announced by a packet header, if its type is acceptable. */
  function Announced(b: seq<byte>, msg: bool): Option<nat>
    requires |b| >= 3
  {
    var typ := b[2];
    var n := Len16(b[0], b[1]);
    if typ / 16 % 2 == 0 then (if msg then None else Some(n + RX_HEADER))
    else if typ == TYPE_CMD_RSP then Some(Align4(n + 4))
    else if typ == TYPE_DATA_CFM then (if n == 8 then Some(12) else None)
    else None
  }

  // ---------------------------------------------------------------------------
  // One completion
  // ---------------------------------------------------------------------------

  /** The fragment continues the packet under way. */
  predicate Continues(s: Assembly, len: nat) {
    if s.curFrags + 1 == s.totalFrags then s.curLen + len == s.totalLen else len == MAX_PKT
  }

  /** A transfer that starts a packet; `alloc` is the success of its allocation. */
  function Fresh(urb: Urb, msg: bool, alloc: bool): (Assembly, Option<seq<byte>>)
    requires urb.Valid()
  {
    var a := Announced(urb.buf, msg);
    if a == None then (IDLE, None)
    else if a.value > MAX_PKT && urb.len == MAX_PKT then
      ((if alloc then Assembly(Some(urb.Data()), a.value, urb.len, Frags(a.value), 1) else IDLE), None)
    else if a.value != urb.len then (IDLE, None)
    else (IDLE, Some(urb.Data()))
  }

  function Step(s: Assembly, urb: Urb, msg: bool, alloc: bool): (Assembly, Option<seq<byte>>)
    requires urb.Valid()
  {
    if s.skb == None || !Continues(s, urb.len) then Fresh(urb, msg, alloc)
    else
      var skb := s.skb.value + urb.Data();
      if s.curFrags + 1 == s.totalFrags then (IDLE, Some(skb))
      else (s.(skb := Some(skb), curLen := s.curLen + urb.len, curFrags := s.curFrags + 1), None)
  }

  /** While a packet is under way its length is a whole number of transfers and
      short of the total. */
  ghost predicate Ok(s: Assembly) {
    if s.skb == None then s == IDLE
    else
      && 1 <= s.curFrags < s.totalFrags
      && s.totalFrags == Frags(s.totalLen)
      && s.curLen == |s.skb.value| == s.curFrags * 2048 < s.totalLen
  }

  /** The invariant is kept by every transfer, and a copy never leaves the packet's
      allocation. */
  lemma StepKeepsOk(s: Assembly, urb: Urb, msg: bool, alloc: bool)
    requires Ok(s) && urb.Valid()
    ensures Ok(Step(s, urb, msg, alloc).0)
    ensures s.skb.Some? && Continues(s, urb.len) ==> |s.skb.value| + urb.len <= s.totalLen
  {
  }

  /** An invalid fragment costs only the partial packet: it is treated as if it had
      arrived with none under way. */
  lemma InvalidIsFresh(s: Assembly, urb: Urb, msg: bool, alloc: bool)
    requires urb.Valid() && s.skb.Some? && !Continues(s, urb.len)
    ensures Step(s, urb, msg, alloc) == Step(IDLE, urb, msg, alloc)
  {
  }

  class Reassembler {
    const msg: bool
    var skb: Option<seq<byte>>
    var totalLen: nat
    var curLen: nat
    var totalFrags: nat
    var curFrags: nat

    ghost function View(): Assembly
      reads this
    {
      Assembly(skb, totalLen, curLen, totalFrags, curFrags)
    }

    constructor (msg: bool)
      ensures View() == IDLE && this.msg == msg
    {
      this.msg := msg;
      skb, totalLen, curLen, totalFrags, curFrags := None, 0, 0, 0, 0;
    }

    method Reset()
      modifies this
      ensures View() == IDLE
    {
      skb, totalLen, curLen, totalFrags, curFrags := None, 0, 0, 0, 0;
    }

    /** The handler between `skb_put` and the enqueue; `out` is the frame enqueued. */
    method RxComplete(urb: Urb, alloc: bool) returns (out: Option<seq<byte>>)
      requires urb.Valid() && Ok(View())
      modifies this
      ensures (View(), out) == Step(old(View()), urb, msg, alloc)
      ensures Ok(View())
    {
      StepKeepsOk(View(), urb, msg, alloc);
      if skb.Some? {
        var valid, done := false, false;
        if curFrags + 1 == totalFrags {
          if curLen + urb.len == totalLen {
            valid, done := true, true;
          }
        } else if urb.len == MAX_PKT {
          valid := true;
        }
        if valid {
          skb := Some(skb.value + urb.buf[..urb.len]);
          curLen := curLen + urb.len;
          curFrags := curFrags + 1;
          if done {
            out := skb;
            Reset();
            return;
          }
          return None;
        }
        Reset();
      }
      out := Check(urb, alloc);
    }

    /** The check of a transfer that starts a packet (lines 471-541 and 668-716). */
    method Check(urb: Urb, alloc: bool) returns (out: Option<seq<byte>>)
      requires urb.Valid() && View() == IDLE
      modifies this
      ensures (View(), out) == Fresh(urb, msg, alloc)
    {
      var typ := urb.buf[2];
      var pktLen := Len16(urb.buf[0], urb.buf[1]);
      if typ / 16 % 2 == 0 {
        if msg {
          return None;
        }
        out := CheckLength(urb, pktLen + RX_HEADER, alloc);
      } else if typ == TYPE_CMD_RSP {
        out := CheckLength(urb, Align4(pktLen + 4), alloc);
      } else if typ == TYPE_DATA_CFM {
        out := if pktLen == 8 && urb.len == 12 then Some(urb.buf[..urb.len]) else None;
      } else {
        out := None;
      }
    }

    method CheckLength(urb: Urb, total: nat, alloc: bool) returns (out: Option<seq<byte>>)
      requires urb.Valid() && View() == IDLE
      modifies this
      ensures total > MAX_PKT && urb.len == MAX_PKT ==>
                out == None &&
                View() == (if alloc then Assembly(Some(urb.Data()), total, urb.len, Frags(total), 1)
                           else IDLE)
      ensures !(total > MAX_PKT && urb.len == MAX_PKT) ==>
                View() == IDLE && out == if total == urb.len then Some(urb.Data()) else None
    {
      if total > MAX_PKT && urb.len == MAX_PKT {
        if alloc {
          skb := Some(urb.buf[..urb.len]);
          totalLen, curLen := total, urb.len;
          totalFrags, curFrags := Align2048(total) / 2048, 1;
        }
        return None;
      } else if total != urb.len {
        return None;
      }
      return Some(urb.buf[..urb.len]);
    }
  }

  // ---------------------------------------------------------------------------
  // Streams
  // ---------------------------------------------------------------------------

  ghost predicate WellFormed(p: seq<byte>, msg: bool) {
    |p| >= 3 && Announced(p, msg) == Some(|p|)
  }

  /** Cut into maximal fragments. */
  function Split(p: seq<byte>): seq<seq<byte>>
    decreases |p|
  {
    if |p| <= MAX_PKT then [p] else [p[..2048]] + Split(p[2048..])
  }

  /** The count that the driver computes is the number of maximal fragments. */
  lemma {:induction false} FragsCountSplit(p: seq<byte>)
    requires p != []
    ensures |Split(p)| == Frags(|p|)
    decreases |p|
  {
    if |p| <= MAX_PKT {
      FragsBetween(|p|, 0);
    } else {
      FragsCountSplit(p[2048..]);
      FragsNext(|p|);
    }
  }

  lemma FragsNext(total: nat)
    requires total > 2048
    ensures Frags(total) == 1 + Frags(total - 2048)
  {
  }

  function SplitAll(ps: seq<seq<byte>>): seq<seq<byte>> {
    if ps == [] then [] else Split(ps[0]) + SplitAll(ps[1..])
  }

  /** Transfers that carry the given fragments; the rest of each buffer is arbitrary. */
  ghost predicate Carries(urbs: seq<Urb>, frags: seq<seq<byte>>) {
    && |urbs| == |frags|
    && forall i :: 0 <= i < |urbs| ==> urbs[i].Valid() && urbs[i].Data() == frags[i]
  }

  ghost predicate AllValid(urbs: seq<Urb>) {
    forall i :: 0 <= i < |urbs| ==> urbs[i].Valid()
  }

  /** The packets queued by a run of transfers with every allocation succeeding... */
  ghost function Outputs(s: Assembly, urbs: seq<Urb>, msg: bool): seq<seq<byte>>
    requires AllValid(urbs)
    decreases |urbs|
  {
    if urbs == [] then []
    else
      var (s', out) := Step(s, urbs[0], msg, true);
      Emit(out) + Outputs(s', urbs[1..], msg)
  }

  /** ... and the assembly it leaves. */
  ghost function After(s: Assembly, urbs: seq<Urb>, msg: bool): Assembly
    requires AllValid(urbs)
    decreases |urbs|
  {
    if urbs == [] then s else After(Step(s, urbs[0], msg, true).0, urbs[1..], msg)
  }

  function Emit(out: Option<seq<byte>>): seq<seq<byte>> { if out == None then [] else [out.value] }

  lemma OutputsOne(s: Assembly, us: seq<Urb>, msg: bool, s': Assembly, out: Option<seq<byte>>)
    requires us != [] && AllValid(us) && Step(s, us[0], msg, true) == (s', out)
    ensures Outputs(s, us, msg) == Emit(out) + Outputs(s', us[1..], msg)
    ensures After(s, us, msg) == After(s', us[1..], msg)
  {
  }

  lemma {:induction false} OutputsAppend(s: Assembly, us: seq<Urb>, vs: seq<Urb>, msg: bool)
    requires AllValid(us) && AllValid(vs) && AllValid(us + vs)
    ensures Outputs(s, us + vs, msg) == Outputs(s, us, msg) + Outputs(After(s, us, msg), vs, msg)
    decreases |us|
  {
    if us == [] {
      assert us + vs == vs;
    } else {
      var r := Step(s, us[0], msg, true);
      assert (us + vs)[0] == us[0] && (us + vs)[1..] == us[1..] + vs;
      OutputsAppend(r.0, us[1..], vs, msg);
      OutputsOne(s, us, msg, r.0, r.1);
      OutputsOne(s, us + vs, msg, r.0, r.1);
      Assoc(Emit(r.1), Outputs(r.0, us[1..], msg), Outputs(After(s, us, msg), vs, msg));
    }
  }

  lemma Assoc(a: seq<seq<byte>>, b: seq<seq<byte>>, c: seq<seq<byte>>)
    ensures a + (b + c) == (a + b) + c
  {
  }

  lemma CarriesHead(us: seq<Urb>, f: seq<byte>, frags: seq<seq<byte>>)
    requires Carries(us, [f] + frags)
    ensures us != [] && us[0].Valid() && us[0].Data() == f && Carries(us[1..], frags)
  {
    assert ([f] + frags)[0] == f;
    forall i | 0 <= i < |us| - 1 ensures us[1..][i].Valid() && us[1..][i].Data() == frags[i] {
      assert ([f] + frags)[i + 1] == frags[i] && us[i + 1].Data() == ([f] + frags)[i + 1];
    }
  }

  lemma CarriesSplit(us: seq<Urb>, a: seq<seq<byte>>, b: seq<seq<byte>>)
    requires Carries(us, a + b)
    ensures Carries(us[..|a|], a) && Carries(us[|a|..], b) && us == us[..|a|] + us[|a|..]
  {
    forall i | 0 <= i < |b| ensures us[|a|..][i].Valid() && us[|a|..][i].Data() == b[i] {
      assert us[|a| + i].Data() == (a + b)[|a| + i];
    }
  }

  /** The assembly after `k` fragments of `p`. */
  function Partway(p: seq<byte>, k: nat): Assembly
    requires k * 2048 <= |p|
  {
    Assembly(Some(p[..k * 2048]), |p|, k * 2048, Frags(|p|), k)
  }

  lemma LastFragment(p: seq<byte>, k: nat, urb: Urb, msg: bool)
    requires 1 <= k && k * 2048 < |p| <= k * 2048 + 2048
    requires urb.Valid() && urb.Data() == p[k * 2048..]
    ensures Step(Partway(p, k), urb, msg, true) == (IDLE, Some(p))
  {
    FragsBetween(|p|, k);
    assert p[..k * 2048] + p[k * 2048..] == p;
  }

  lemma MiddleFragment(p: seq<byte>, k: nat, urb: Urb, msg: bool)
    requires 1 <= k && k * 2048 + 2048 < |p|
    requires urb.Valid() && urb.Data() == p[k * 2048..k * 2048 + 2048]
    ensures Step(Partway(p, k), urb, msg, true) == (Partway(p, k + 1), None)
  {
    FragsBetween(|p|, k);
    assert p[..k * 2048] + p[k * 2048..k * 2048 + 2048] == p[..(k + 1) * 2048];
  }

  lemma FirstFragment(p: seq<byte>, urb: Urb, msg: bool)
    requires WellFormed(p, msg) && |p| > MAX_PKT && urb.Valid() && urb.Data() == p[..2048]
    ensures Step(IDLE, urb, msg, true) == (Partway(p, 1), None)
  {
    SameHeader(urb, p, msg);
  }

  lemma SameHeader(urb: Urb, p: seq<byte>, msg: bool)
    requires urb.Valid() && urb.Data() <= p && 3 <= urb.len
    ensures |p| >= 3 && Announced(urb.buf, msg) == Announced(p, msg)
  {
    assert forall i :: 0 <= i < 3 ==> urb.buf[i] == urb.Data()[i] == p[i];
  }

  /** Once a packet is under way its remaining fragments complete it. */
  lemma {:induction false} RestCompletes(p: seq<byte>, k: nat, us: seq<Urb>, msg: bool)
    requires 1 <= k && k * 2048 < |p| && Carries(us, Split(p[k * 2048..]))
    ensures Outputs(Partway(p, k), us, msg) == [p] && After(Partway(p, k), us, msg) == IDLE
    decreases |p| - k * 2048
  {
    var rest := p[k * 2048..];
    if |rest| <= MAX_PKT {
      LastFragment(p, k, us[0], msg);
      OutputsOne(Partway(p, k), us, msg, IDLE, Some(p));
    } else {
      CarriesHead(us, rest[..2048], Split(rest[2048..]));
      assert rest[..2048] == p[k * 2048..k * 2048 + 2048];
      MiddleFragment(p, k, us[0], msg);
      assert rest[2048..] == p[(k + 1) * 2048..];
      RestCompletes(p, k + 1, us[1..], msg);
      OutputsOne(Partway(p, k), us, msg, Partway(p, k + 1), None);
    }
  }

  lemma PacketCompletes(p: seq<byte>, us: seq<Urb>, msg: bool)
    requires WellFormed(p, msg) && Carries(us, Split(p))
    ensures Outputs(IDLE, us, msg) == [p] && After(IDLE, us, msg) == IDLE
  {
    if |p| <= MAX_PKT {
      SameHeader(us[0], p, msg);
      OutputsOne(IDLE, us, msg, IDLE, Some(p));
    } else {
      CarriesHead(us, p[..2048], Split(p[2048..]));
      FirstFragment(p, us[0], msg);
      RestCompletes(p, 1, us[1..], msg);
      OutputsOne(IDLE, us, msg, Partway(p, 1), None);
    }
  }

  /** Any stream of well-formed packets, cut into maximal fragments, is queued as
      exactly those packets in order. */
  lemma {:induction false} StreamIsRestored(ps: seq<seq<byte>>, us: seq<Urb>, msg: bool)
    requires forall i :: 0 <= i < |ps| ==> WellFormed(ps[i], msg)
    requires Carries(us, SplitAll(ps))
    ensures Outputs(IDLE, us, msg) == ps
    decreases |ps|
  {
    if ps != [] {
      var n := |Split(ps[0])|;
      CarriesSplit(us, Split(ps[0]), SplitAll(ps[1..]));
      PacketCompletes(ps[0], us[..n], msg);
      StreamIsRestored(ps[1..], us[n..], msg);
      OutputsAppend(IDLE, us[..n], us[n..], msg);
      assert ps == [ps[0]] + ps[1..];
    }
  }

  /** A packet cut short loses only itself: if the first transfer after it does not
      fit the packet under way, every packet that follows is queued. */
  lemma TruncationLosesOnlyItself(s: Assembly, ps: seq<seq<byte>>, us: seq<Urb>, msg: bool)
    requires s.skb.Some? && us != [] && !Continues(s, us[0].len)
    requires forall i :: 0 <= i < |ps| ==> WellFormed(ps[i], msg)
    requires Carries(us, SplitAll(ps))
    ensures Outputs(s, us, msg) == ps
  {
    InvalidIsFresh(s, us[0], msg, true);
    StreamIsRestored(ps, us, msg);
  }

  // ---------------------------------------------------------------------------
  // What is accepted
  // ---------------------------------------------------------------------------

  /** The length a header announces: bits 4 of the type off, a data packet of 60 bytes more
      than the low-byte-first length, refused by the message endpoint; type 0x11, a command
      response, of the length plus 4 rounded up to a multiple of 4; type 0x12, a data
      confirmation, of exactly 12 bytes with length 8; nothing else. */
  lemma AnnouncedMeaning(b: seq<byte>, msg: bool, t: nat)
    requires |b| >= 3
    ensures var n := Value(b[..2]);
            Announced(b, msg) == Some(t) <==>
              || (b[2] / 16 % 2 == 0 && !msg && t == n + 60)
              || (b[2] == 0x11 && t % 4 == 0 && n + 4 <= t < n + 8)
              || (b[2] == 0x12 && n == 8 && t == 12)
  {
    assert b[..2][1..] == [b[1]] && [b[1]][1..] == [];
    assert Value(b[..2]) == b[0] + 256 * Value([b[1]]) && Value([b[1]]) == b[1] + 256 * Value([]);
    RoundUp(Value(b[..2]) + 4, t);
  }

  lemma RoundUp(x: nat, t: nat)
    ensures Align4(x) == t <==> t % 4 == 0 && x <= t < x + 4
  {
  }

  /** The packet under way is announced by its own header. */
  ghost predicate Headed(s: Assembly, msg: bool) {
    s.skb.Some? ==> |s.skb.value| >= 3 && Announced(s.skb.value, msg) == Some(s.totalLen)
  }

  lemma SameAnnounced(b: seq<byte>, c: seq<byte>, msg: bool)
    requires |b| >= 3 && |c| >= 3 && b[0] == c[0] && b[1] == c[1] && b[2] == c[2]
    ensures Announced(b, msg) == Announced(c, msg)
  {
  }

  lemma FreshQueuesWellFormed(urb: Urb, msg: bool, alloc: bool)
    requires urb.Valid()
    ensures var r := Fresh(urb, msg, alloc); Headed(r.0, msg) && (r.1.Some? ==> WellFormed(r.1.value, msg))
  {
    if Announced(urb.buf, msg).Some? {
      AnnouncedMeaning(urb.buf, msg, Announced(urb.buf, msg).value);
      if urb.len >= 3 { SameAnnounced(urb.buf, urb.Data(), msg); }
    }
  }

  /** Whatever arrives, only packets whose length is the one their header announces are
      queued. */
  lemma OnlyWellFormedQueued(s: Assembly, urb: Urb, msg: bool, alloc: bool)
    requires Ok(s) && Headed(s, msg) && urb.Valid()
    ensures var r := Step(s, urb, msg, alloc); Headed(r.0, msg) && (r.1.Some? ==> WellFormed(r.1.value, msg))
  {
    if s.skb.Some? && Continues(s, urb.len) {
      SameAnnounced(s.skb.value, s.skb.value + urb.Data(), msg);
    } else {
      FreshQueuesWellFormed(urb, msg, alloc);
    }
  }
}
