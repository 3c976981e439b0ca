/** The Bluetooth patch table (aicwf_compat_8800dc.c): a bounds-checked parser of
    a firmware file, and the loader that issues its memory writes in order. */
module PatchTable {
  import opened Machine

  const TAG: seq<byte> := [65, 73, 67, 66, 84, 95, 80, 84, 95, 84, 65, 71, 0] // "AICBT_PT_TAG", with its NUL
  const NO_DATA_FROM := 1000

  const PT_NULL := 0
  const PT_BTMODE := 3
  const PT_PWRON := 4
  const PT_VER := 6

  /** An entry as written in the file. */
  datatype Entry = Entry(name: seq<byte>, typ: u32, len: u32, data: seq<byte>)
  {
    /** Types from 1000 up carry no data whatever their length field says. */
    predicate WellFormed() {
      |name| == 16 && |data| == if typ >= NO_DATA_FROM then 0 else 8 * len
    }

    function Bytes(): seq<byte> {
      name + WordBytes(typ) + WordBytes(len) + data
    }

    /** What the parser keeps: a data-less entry loses its length field. */
    function Kept(): Entry { if typ >= NO_DATA_FROM then this.(len := 0) else this }
  }

  datatype Parsed = Table(entries: seq<Entry>) | Invalid

  // ---------------------------------------------------------------------------
  // The file format
  // ---------------------------------------------------------------------------

  ghost predicate AllWellFormed(es: seq<Entry>) {
    forall i :: 0 <= i < |es| ==> es[i].WellFormed()
  }

  function Serialise(es: seq<Entry>): seq<byte> {
    if es == [] then [] else es[0].Bytes() + Serialise(es[1..])
  }

  function AllKept(es: seq<Entry>): (ks: seq<Entry>)
    ensures |ks| == |es|
  {
    if es == [] then [] else [es[0].Kept()] + AllKept(es[1..])
  }

  predicate HasTag(b: seq<byte>) { |b| >= 16 && b[..13] == TAG }

  /** The first entry of `b`, when it is whole. */
  function FirstEntry(b: seq<byte>): (e: Option<Entry>)
    ensures e.Some? ==> e.value.WellFormed() && e.value.Bytes() <= b
  {
    if |b| < 24 then None
    else
      var typ, len := WordAt(b, 16), WordAt(b, 20);
      assert b[..24] == b[..16] + b[16..20] + b[20..24];
      if typ >= NO_DATA_FROM then Some(Entry(b[..16], typ, len, []))
      else if len > (|b| - 24) / 8 then None
      else
        assert b[..24 + 8 * len] == b[..24] + b[24..24 + 8 * len];
        Some(Entry(b[..16], typ, len, b[24..24 + 8 * len]))
  }

  function Entries(b: seq<byte>): Option<seq<Entry>>
    decreases |b|
  {
    if b == [] then Some([])
    else
      var e := FirstEntry(b);
      if e == None then None
      else
        var rest := Entries(b[|e.value.Bytes()|..]);
        if rest == None then None else Some([e.value] + rest.value)
  }

  lemma FirstEntryOf(e: Entry, rest: seq<byte>)
    requires e.WellFormed()
    ensures FirstEntry(e.Bytes() + rest) == Some(e)
  {
    var b := e.Bytes() + rest;
    assert b[..16] == e.name && b[16..20] == WordBytes(e.typ) && b[20..24] == WordBytes(e.len);
    WordBytesInjective(WordAt(b, 16), e.typ);
    WordBytesInjective(WordAt(b, 20), e.len);
    assert b[24..24 + |e.data|] == e.data;
  }

  lemma SplitFirst(b: seq<byte>) returns (e: Entry, rest: seq<byte>)
    requires b != [] && Entries(b).Some?
    ensures e.WellFormed() && b == e.Bytes() + rest && |rest| < |b|
    ensures Entries(rest).Some? && Entries(b).value == [e] + Entries(rest).value
  {
    e := FirstEntry(b).value;
    rest := b[|e.Bytes()|..];
  }

  lemma EntriesCons(e: Entry, rest: seq<byte>)
    requires e.WellFormed()
    ensures Entries(e.Bytes() + rest) == Prepend([e], Entries(rest))
  {
    FirstEntryOf(e, rest);
    assert (e.Bytes() + rest)[|e.Bytes()|..] == rest;
  }

  lemma SerialiseCons(e: Entry, es: seq<Entry>)
    requires e.WellFormed() && AllWellFormed(es)
    ensures Serialise([e] + es) == e.Bytes() + Serialise(es) && AllWellFormed([e] + es)
  {
    assert ([e] + es)[1..] == es;
  }

  /** Everything the parser accepts is a concatenation of whole entries... */
  lemma {:induction false} AcceptedIsWhole(b: seq<byte>)
    requires Entries(b).Some?
    ensures AllWellFormed(Entries(b).value) && Serialise(Entries(b).value) == b
    decreases |b|
  {
    if b != [] {
      var e, rest := SplitFirst(b);
      AcceptedIsWhole(rest);
      SerialiseCons(e, Entries(rest).value);
    }
  }

  /** ... and every such concatenation is accepted and recovered. */
  lemma {:induction false} WholeIsAccepted(es: seq<Entry>)
    requires AllWellFormed(es)
    ensures Entries(Serialise(es)) == Some(es)
    decreases |es|
  {
    if es != [] {
      EntriesCons(es[0], Serialise(es[1..]));
      WholeIsAccepted(es[1..]);
      assert es == [es[0]] + es[1..];
    }
  }

  ghost predicate NoStrayLength(es: seq<Entry>) {
    forall i :: 0 <= i < |es| && es[i].typ >= NO_DATA_FROM ==> es[i].len == 0
  }

  lemma {:induction false} KeptSame(es: seq<Entry>)
    ensures AllKept(es) == es <==> NoStrayLength(es)
    decreases |es|
  {
    if es != [] {
      KeptSame(es[1..]);
      assert es == [es[0]] + es[1..];
      assert forall i :: 0 <= i < |es[1..]| ==> es[1..][i] == es[i + 1];
      assert AllKept(es)[1..] == AllKept(es[1..]) && AllKept(es)[0] == es[0].Kept();
      if NoStrayLength(es) {
        assert NoStrayLength(es[1..]);
      }
      if AllKept(es) == es {
        forall i | 0 <= i < |es| && es[i].typ >= NO_DATA_FROM ensures es[i].len == 0 {
          if i > 0 { assert es[i] == es[1..][i - 1]; }
        }
      }
    }
  }

  lemma {:induction false} KeptWellFormed(es: seq<Entry>)
    requires AllWellFormed(es)
    ensures AllWellFormed(AllKept(es))
    decreases |es|
  {
    if es != [] {
      KeptWellFormed(es[1..]);
    }
  }

  /** Re-serialising what the parser kept gives back the file exactly when every
      data-less entry had length 0. */
  lemma ReserialiseIff(es: seq<Entry>)
    requires AllWellFormed(es)
    ensures Serialise(AllKept(es)) == Serialise(es) <==> NoStrayLength(es)
  {
    KeptSame(es);
    KeptWellFormed(es);
    WholeIsAccepted(es);
    WholeIsAccepted(AllKept(es));
  }

  /** For example a file of one entry of type 1000 with length 1. */
  lemma StrayLengthIsLost(name: seq<byte>)
    requires |name| == 16
    ensures var e := Entry(name, 1000, 1, []);
            AllWellFormed([e]) && Serialise(AllKept([e])) != Serialise([e])
  {
    var e := Entry(name, 1000, 1, []);
    assert !NoStrayLength([e]) by { assert [e][0].len == 1; }
    ReserialiseIff([e]);
  }

  lemma HeaderAt(raw: seq<byte>, at: nat)
    requires at + 24 <= |raw|
    ensures raw[at..at + 16] == raw[at..][..16]
    ensures WordAt(raw, at + 16) == WordAt(raw[at..], 16) && WordAt(raw, at + 20) == WordAt(raw[at..], 20)
  {
  }

  /** One turn of the parse loop, at offset `at`: the entry kept and the new offset. */
  method ParseEntry(raw: seq<byte>, at: nat) returns (cur: Option<Entry>, next: nat)
    requires at < |raw|
    ensures cur.None? <==> FirstEntry(raw[at..]).None?
    ensures cur.Some? ==> cur.value == FirstEntry(raw[at..]).value.Kept()
                          && next == at + |FirstEntry(raw[at..]).value.Bytes()| <= |raw|
  {
    FirstEntryAt(raw, at);
    var p := at;
    var remaining := |raw| - p;
    if remaining < 24 {
      return None, p;
    }
    var name := raw[p..p + 16];
    p := p + 16;
    var typ := WordAt(raw, p);
    p := p + 4;
    var len := WordAt(raw, p);
    p := p + 4;
    if typ >= NO_DATA_FROM {
      return Some(Entry(name, typ, 0, [])), p;
    }
    remaining := |raw| - p;
    if len > remaining / 8 {
      return None, p;
    }
    return Some(Entry(name, typ, len, raw[p..p + 8 * len])), p + 8 * len;
  }

  /** The first entry from offset `at` on, in terms of the whole file. */
  lemma FirstEntryAt(raw: seq<byte>, at: nat)
    requires at <= |raw|
    ensures |raw| - at < 24 ==> FirstEntry(raw[at..]) == None
    ensures |raw| - at >= 24 ==>
              var typ, len := WordAt(raw, at + 16), WordAt(raw, at + 20);
              FirstEntry(raw[at..]) ==
                if typ >= NO_DATA_FROM then Some(Entry(raw[at..at + 16], typ, len, []))
                else if len > (|raw| - at - 24) / 8 then None
                else Some(Entry(raw[at..at + 16], typ, len, raw[at + 24..at + 24 + 8 * len]))
  {
    if |raw| - at >= 24 {
      HeaderAt(raw, at);
      var typ, len := WordAt(raw, at + 16), WordAt(raw, at + 20);
      if typ < NO_DATA_FROM && len <= (|raw| - at - 24) / 8 {
        assert raw[at + 24..at + 24 + 8 * len] == raw[at..][24..24 + 8 * len];
      }
    }
  }

  /** `rwnx_patch_table_download`, with every allocation succeeding. */
  method Parse(raw: seq<byte>) returns (r: Parsed)
    ensures r == if HasTag(raw) && Entries(raw[16..]).Some?
                 then Table(AllKept(Entries(raw[16..]).value)) else Invalid
  {
    if |raw| < 16 {
      return Invalid;
    }
    if raw[..13] != TAG {
      return Invalid;
    }
    var p := 16;
    var list := [];
    ghost var seen: seq<Entry> := [];
    PrependNothing(Entries(raw[16..]));
    while p < |raw|
      invariant 16 <= p <= |raw|
      invariant list == AllKept(seen)
      invariant Entries(raw[16..]) == Prepend(seen, Entries(raw[p..]))
      decreases |raw| - p
    {
      ghost var at := p;
      var cur;
      cur, p := ParseEntry(raw, p);
      if cur == None {
        return Invalid;
      }
      ghost var e := FirstEntry(raw[at..]).value;
      EntriesStep(raw, at, p);
      KeptSnoc(seen, e);
      PrependSnoc(seen, e, Entries(raw[p..]));
      list := list + [cur.value];
      seen := seen + [e];
    }
    assert raw[p..] == [] && seen + [] == seen;
    return Table(list);
  }

  lemma EntriesStep(raw: seq<byte>, at: nat, p: nat)
    requires at < |raw| && FirstEntry(raw[at..]).Some?
    requires p == at + |FirstEntry(raw[at..]).value.Bytes()| <= |raw|
    ensures Entries(raw[at..]) == Prepend([FirstEntry(raw[at..]).value], Entries(raw[p..]))
  {
    assert raw[at..][p - at..] == raw[p..];
  }

  function Prepend(es: seq<Entry>, r: Option<seq<Entry>>): Option<seq<Entry>> {
    if r == None then None else Some(es + r.value)
  }

  lemma PrependNothing(r: Option<seq<Entry>>)
    ensures Prepend([], r) == r
  {
    if r.Some? { assert [] + r.value == r.value; }
  }

  lemma PrependSnoc(es: seq<Entry>, e: Entry, r: Option<seq<Entry>>)
    ensures Prepend(es, Prepend([e], r)) == Prepend(es + [e], r)
  {
    if r.Some? {
      assert es + ([e] + r.value) == (es + [e]) + r.value;
    }
  }

  lemma {:induction false} KeptSnoc(es: seq<Entry>, e: Entry)
    ensures AllKept(es + [e]) == AllKept(es) + [e.Kept()]
    decreases |es|
  {
    if es != [] {
      assert (es + [e])[1..] == es[1..] + [e];
      KeptSnoc(es[1..], e);
    }
  }

  // ---------------------------------------------------------------------------
  // Loading
  // ---------------------------------------------------------------------------

  datatype Write = Write(addr: u32, val: u32)

  /** The driver's settings that replace the values of a BTMODE entry. */
  datatype Settings = Settings(
    hwinfo: int, cpmode: u32, btmode: u32, btport: u32,
    uartBaud: u32, uartFlowctrl: u32, lpmEnable: u32, txpwrLvl: u32)
  {
    function Overrides(): (s: seq<u32>)
      ensures |s| == 9
    {
      [if hwinfo < 0 then 1 else 0, hwinfo % U32, cpmode, btmode, btport,
       uartBaud, uartFlowctrl, lpmEnable, txpwrLvl]
    }
  }

  /** Entries whose pairs are written to memory. */
  predicate Loadable(e: Entry) {
    e.typ != PT_NULL && e.typ != PT_PWRON && e.typ != PT_VER
  }

  /** A BTMODE entry has nine values overwritten, whether or not it holds that many. */
  predicate CanLoad(e: Entry) {
    e.typ == PT_BTMODE ==> e.len >= 9
  }

  ghost predicate AllPaired(es: seq<Entry>) {
    forall i :: 0 <= i < |es| ==> |es[i].data| == 8 * es[i].len
  }

  /** The first entry whose overrides do not fit, or the number of entries. */
  function FirstBad(es: seq<Entry>): (n: nat)
    ensures n <= |es| && (n < |es| ==> !CanLoad(es[n])) && forall i :: 0 <= i < n ==> CanLoad(es[i])
  {
    if es == [] || !CanLoad(es[0]) then 0 else 1 + FirstBad(es[1..])
  }

  /** For example a BTMODE entry without data, for which the source has no buffer at all. */
  lemma EmptyBtmodeOverruns(name: seq<byte>)
    requires |name| == 16
    ensures var e := Entry(name, PT_BTMODE, 0, []); e.WellFormed() && FirstBad([e]) == 0
  {
  }

  /** `Overrun`: the overrides were written past the end of an entry. */
  datatype Loaded = Done | WriteFailed | Overrun

  /** Pair `i` of an entry: the value of each of the first nine BTMODE pairs is
      replaced by the corresponding setting. */
  function PairAt(e: Entry, info: seq<u32>, i: nat): Write
    requires |info| == 9 && |e.data| == 8 * e.len && i < e.len
  {
    Write(WordAt(e.data, 8 * i),
          if e.typ == PT_BTMODE && i < 9 then info[i] else WordAt(e.data, 8 * i + 4))
  }

  function Pairs(e: Entry, info: seq<u32>): seq<Write>
    requires |info| == 9 && |e.data| == 8 * e.len
  {
    seq(e.len, i requires 0 <= i < e.len => PairAt(e, info, i))
  }

  function EntryWrites(e: Entry, info: seq<u32>): seq<Write>
    requires |info| == 9 && |e.data| == 8 * e.len
  {
    if Loadable(e) then Pairs(e, info) else []
  }

  ghost function AllWrites(es: seq<Entry>, info: seq<u32>): seq<Write>
    requires |info| == 9 && AllPaired(es)
  {
    if es == [] then []
    else
      assert |es[0].data| == 8 * es[0].len;
      EntryWrites(es[0], info) + AllWrites(es[1..], info)
  }

  /** The writes issued when request `k` succeeds iff `ok(k)`: up to and including
      the first failure. */
  function Issued(ws: seq<Write>, ok: nat -> bool, k: nat): (s: seq<Write>)
    requires k <= |ws|
    ensures s <= ws && |s| >= k
    decreases |ws| - k
  {
    if k == |ws| then ws else if !ok(k) then ws[..k + 1] else Issued(ws, ok, k + 1)
  }

  lemma AllOkIssuesAll(ws: seq<Write>, ok: nat -> bool, k: nat)
    requires k <= |ws| && forall i :: k <= i < |ws| ==> ok(i)
    ensures Issued(ws, ok, k) == ws
    decreases |ws| - k
  {
  }

  /** The inner loop: the pairs of one entry, after `done` writes. */
  method LoadPairs(e: Entry, info: seq<u32>, ok: nat -> bool, done: seq<Write>) returns (writes: seq<Write>, success: bool)
    requires |info| == 9 && |e.data| == 8 * e.len
    ensures success ==> writes == done + Pairs(e, info) && forall k :: |done| <= k < |writes| ==> ok(k)
    ensures !success ==> |done| < |writes| && writes <= done + Pairs(e, info) && !ok(|writes| - 1)
                         && forall k :: |done| <= k < |writes| - 1 ==> ok(k)
  {
    writes := done;
    ghost var ps := Pairs(e, info);
    for i := 0 to e.len
      invariant writes == done + ps[..i]
      invariant forall k :: |done| <= k < |writes| ==> ok(k)
    {
      var addr := WordAt(e.data, 8 * i);
      var val := WordAt(e.data, 8 * i + 4);
      if e.typ == PT_BTMODE && i < 9 {
        val := info[i];
      }
      assert ps[..i + 1] == ps[..i] + [Write(addr, val)];
      writes := writes + [Write(addr, val)];
      if !ok(|writes| - 1) {
        return writes, false;
      }
    }
    assert ps[..e.len] == ps;
    return writes, true;
  }

  /** The rest of the outer loop's turn: entries that are not loaded write nothing. */
  method LoadEntry(e: Entry, info: seq<u32>, ok: nat -> bool, done: seq<Write>) returns (writes: seq<Write>, success: bool)
    requires |info| == 9 && |e.data| == 8 * e.len
    ensures success ==> writes == done + EntryWrites(e, info) && forall k :: |done| <= k < |writes| ==> ok(k)
    ensures !success ==> |done| < |writes| && writes <= done + EntryWrites(e, info) && !ok(|writes| - 1)
                         && forall k :: |done| <= k < |writes| - 1 ==> ok(k)
  {
    if e.typ == PT_NULL || e.typ == PT_PWRON || e.typ == PT_VER || e.len == 0 {
      assert done + EntryWrites(e, info) == done;
      return done, true;
    }
    writes, success := LoadPairs(e, info, ok, done);
  }

  lemma {:induction false} StopsAtFailure(ws: seq<Write>, ok: nat -> bool, k: nat, n: nat)
    requires k <= n < |ws| && !ok(n) && forall i :: k <= i < n ==> ok(i)
    ensures Issued(ws, ok, k) == ws[..n + 1]
    decreases n - k
  {
    if k < n { StopsAtFailure(ws, ok, k + 1, n); }
  }

  lemma FailedAt(all: seq<Write>, ok: nat -> bool, writes: seq<Write>)
    requires writes != [] && writes <= all && !ok(|writes| - 1) && forall i :: 0 <= i < |writes| - 1 ==> ok(i)
    ensures Issued(all, ok, 0) == writes && exists i :: 0 <= i < |all| && !ok(i)
  {
    StopsAtFailure(all, ok, 0, |writes| - 1);
  }

  /** What the loader issues for `es`: the address/value pairs of the loadable entries,
      in file order, up to the first failed write or the first entry overrun. */
  ghost predicate Outcome(es: seq<Entry>, info: seq<u32>, ok: nat -> bool, writes: seq<Write>, r: Loaded)
    requires |info| == 9 && AllPaired(es)
  {
    var all := AllWrites(es[..FirstBad(es)], info);
    && writes == Issued(all, ok, 0)
    && (r.WriteFailed? <==> exists i :: 0 <= i < |all| && !ok(i))
    && (r.Overrun? ==> FirstBad(es) < |es|)
    && (r.Done? ==> FirstBad(es) == |es|)
  }

  lemma AllWritesStep(es: seq<Entry>, info: seq<u32>, n: nat, done: seq<Write>)
    requires |info| == 9 && AllPaired(es) && n < |es|
    ensures AllPaired(es[n..]) && AllPaired(es[n + 1..])
    ensures done + AllWrites(es[n..], info) == (done + EntryWrites(es[n], info)) + AllWrites(es[n + 1..], info)
  {
    assert es[n..][0] == es[n] && es[n..][1..] == es[n + 1..];
  }

  /** `rwnx_patch_table_load`. */
  method Load(es: seq<Entry>, cfg: Settings, ok: nat -> bool) returns (writes: seq<Write>, r: Loaded)
    requires AllPaired(es)
    ensures Outcome(es, cfg.Overrides(), ok, writes, r)
  {
    writes := [];
    var info := cfg.Overrides();
    ghost var good := es[..FirstBad(es)];
    ghost var all := AllWrites(good, info);
    assert good[0..] == good;
    for n := 0 to |es|
      invariant n <= |good| && writes + AllWrites(good[n..], info) == all
      invariant forall i :: 0 <= i < |writes| ==> ok(i)
    {
      var e := es[n];
      if e.typ == PT_BTMODE && e.len < 9 {
        assert n == |good| && good[n..] == [];
        AllOkIssuesAll(all, ok, 0);
        return writes, Overrun;
      }
      assert n < |good| && good[n] == e;
      AllWritesStep(good, info, n, writes);
      ghost var done := writes + EntryWrites(e, info);
      assert done <= all;
      var success;
      writes, success := LoadEntry(e, info, ok, writes);
      if !success {
        assert writes <= done <= all;
        FailedAt(all, ok, writes);
        return writes, WriteFailed;
      }
    }
    assert good[|es|..] == [];
    AllOkIssuesAll(all, ok, 0);
    r := Done;
  }

  lemma {:induction false} KeptPaired(es: seq<Entry>)
    requires AllWellFormed(es)
    ensures AllPaired(AllKept(es))
    decreases |es|
  {
    if es != [] { KeptPaired(es[1..]); }
  }

  /** Parser and loader together: nothing is written for a file that is not a tag header
      followed by whole entries, and for any other what its entries say. */
  method Download(raw: seq<byte>, cfg: Settings, ok: nat -> bool) returns (writes: seq<Write>, r: Option<Loaded>)
    ensures r == None <==> !HasTag(raw) || Entries(raw[16..]).None?
    ensures r == None ==> writes == []
    ensures r != None ==> AllPaired(AllKept(Entries(raw[16..]).value))
                          && Outcome(AllKept(Entries(raw[16..]).value), cfg.Overrides(), ok, writes, r.value)
  {
    var p := Parse(raw);
    if p.Invalid? {
      return [], None;
    }
    AcceptedIsWhole(raw[16..]);
    KeptPaired(Entries(raw[16..]).value);
    var l;
    writes, l := Load(p.entries, cfg, ok);
    r := Some(l);
  }

  // ---------------------------------------------------------------------------
  // Byte layout
  // ---------------------------------------------------------------------------

  /** The tag is the text "AICBT_PT_TAG" and a NUL. */
  lemma TagIsText(k: nat)
    requires k < 12
    ensures |TAG| == 13 && TAG[12] == 0 && TAG[k] == "AICBT_PT_TAG"[k] as int
  {
  }

  /** An entry: 16 bytes of name, type and length low-order byte first, data. */
  lemma EntryLayout(e: Entry)
    requires e.WellFormed()
    ensures var b := e.Bytes();
            && |b| == (if e.typ >= 1000 then 24 else 24 + 8 * e.len)
            && b[..16] == e.name && Value(b[16..20]) == e.typ && Value(b[20..24]) == e.len && b[24..] == e.data
  {
    var b := e.Bytes();
    assert b[16..20] == WordBytes(e.typ) && b[20..24] == WordBytes(e.len);
    ValueOfWord(e.typ);
    ValueOfWord(e.len);
  }

  lemma WordAtValue(b: seq<byte>, i: nat)
    requires i + 4 <= |b|
    ensures WordAt(b, i) == Value(b[i..i + 4])
  {
    ValueOfWord(WordAt(b, i));
  }

  /** Pair `i` of an entry: its first word is the address, its second the value, unless it
      is one of the first nine pairs of a type-3 entry, whose values come from the
      driver's settings. */
  lemma PairMeaning(e: Entry, info: seq<u32>, i: nat)
    requires |info| == 9 && |e.data| == 8 * e.len && i < e.len
    ensures Pairs(e, info)[i].addr == Value(e.data[8 * i..8 * i + 4])
    ensures Pairs(e, info)[i].val == if e.typ == 3 && i < 9 then info[i] else Value(e.data[8 * i + 4..8 * i + 8])
  {
    WordAtValue(e.data, 8 * i);
    WordAtValue(e.data, 8 * i + 4);
  }

  /** Entries of types 0, 4 and 6 are not loaded, all others are, pair by pair in order. */
  lemma LoadedTypes(e: Entry, info: seq<u32>)
    requires |info| == 9 && |e.data| == 8 * e.len
    ensures |EntryWrites(e, info)| == if e.typ == 0 || e.typ == 4 || e.typ == 6 then 0 else e.len
    ensures forall i :: 0 <= i < |EntryWrites(e, info)| ==> EntryWrites(e, info)[i] == Pairs(e, info)[i]
  {
  }

  /** The first nine values of a BTMODE entry, by name. */
  lemma BtmodeValues(e: Entry, cfg: Settings)
    requires e.typ == 3 && |e.data| == 8 * e.len && e.len >= 9
    ensures var ps := Pairs(e, cfg.Overrides());
            && (ps[0].val == 1 <==> cfg.hwinfo < 0) && (ps[0].val == 0 <==> cfg.hwinfo >= 0)
            && (0 <= cfg.hwinfo < U32 ==> ps[1].val == cfg.hwinfo)
            && (0 <= cfg.hwinfo + U32 < U32 ==> ps[1].val == cfg.hwinfo + U32)
            && ps[2].val == cfg.cpmode && ps[3].val == cfg.btmode && ps[4].val == cfg.btport
            && ps[5].val == cfg.uartBaud && ps[6].val == cfg.uartFlowctrl
            && ps[7].val == cfg.lpmEnable && ps[8].val == cfg.txpwrLvl
  {
  }
}
