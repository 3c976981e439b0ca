/** PPPoE relay-session tags (aic_br_ext.c; tags as in RFC 2516, Appendix A).

    A discovery packet going out gains a relay tag that carries the client's MAC
    address, wrapped around any relay tag it already had; the answer coming back
    loses it again and is readdressed to that client. */
module PppoeRelay {
  import opened Machine

  const RELAY_SID: nat := 0x0110
  const MAGIC: seq<byte> := [0x81, 0x86]
  const TAG_BUF: nat := 40

  datatype Tag = Tag(typ: nat, data: seq<byte>)
  {
    predicate Valid() { typ < 0x10000 && |data| < 0x10000 }

    function Bytes(): (b: seq<byte>)
      requires Valid()
      ensures |b| == 4 + |data|
    {
      U16Bytes(typ) + U16Bytes(|data|) + data
    }
  }

  function U16Bytes(x: nat): (b: seq<byte>)
    requires x < 0x10000
    ensures |b| == 2
  {
    [x / 256, x % 256]
  }

  function U16At(b: seq<byte>, i: nat): nat
    requires i + 2 <= |b|
  {
    U16(b[i], b[i + 1])
  }

  function U16(hi: int, lo: int): nat
    requires 0 <= hi && 0 <= lo
  {
    256 * hi + lo
  }

  ghost predicate AllValid(tags: seq<Tag>) { forall i :: 0 <= i < |tags| ==> tags[i].Valid() }

  /** The tag list on the wire. */
  ghost function Ser(tags: seq<Tag>): seq<byte>
    requires AllValid(tags)
  {
    if tags == [] then [] else tags[0].Bytes() + Ser(tags[1..])
  }

  /** First tag of a type, or the length of the list. */
  function FirstOf(tags: seq<Tag>, typ: nat): (i: nat)
    ensures i <= |tags| && (i < |tags| ==> tags[i].typ == typ) && forall k :: 0 <= k < i ==> tags[k].typ != typ
  {
    if tags == [] || tags[0].typ == typ then 0 else 1 + FirstOf(tags[1..], typ)
  }

  function Without(tags: seq<Tag>, i: nat): seq<Tag> {
    if i < |tags| then tags[..i] + tags[i + 1..] else tags
  }

  // ---------------------------------------------------------------------------
  // What the two directions do to the tag list
  // ---------------------------------------------------------------------------

  function OldData(tags: seq<Tag>): seq<byte> {
    var i := FirstOf(tags, RELAY_SID);
    if i < |tags| then tags[i].data else []
  }

  /** Outgoing PADI or PADR. */
  function Relayed(tags: seq<Tag>, src: seq<byte>): seq<Tag> {
    [Tag(RELAY_SID, MAGIC + src + OldData(tags))] + Without(tags, FirstOf(tags, RELAY_SID))
  }

  /** Incoming PADO or PADS that carries one of our tags. */
  predicate IsOurs(tags: seq<Tag>) {
    var i := FirstOf(tags, RELAY_SID);
    i < |tags| && |tags[i].data| >= 8 && tags[i].data[..2] == MAGIC
  }

  function Client(tags: seq<Tag>): seq<byte>
    requires IsOurs(tags)
  {
    tags[FirstOf(tags, RELAY_SID)].data[2..8]
  }

  function Unrelayed(tags: seq<Tag>): seq<Tag>
    requires IsOurs(tags)
  {
    var i := FirstOf(tags, RELAY_SID);
    if |tags[i].data| > 8 then tags[i := Tag(RELAY_SID, tags[i].data[8..])] else Without(tags, i)
  }

  lemma FirstAfter(pre: seq<Tag>, t: Tag, post: seq<Tag>, typ: nat)
    requires t.typ == typ && forall k :: 0 <= k < |pre| ==> pre[k].typ != typ
    ensures FirstOf(pre + [t] + post, typ) == |pre|
  {
    var l := pre + [t] + post;
    assert l[|pre|] == t;
    assert forall k :: 0 <= k < |pre| ==> l[k] == pre[k];
  }

  /** Whatever other tags the server puts around the echoed relay tag, the answer is
      readdressed to the client, and in place of the echoed tag stands the client's
      own relay tag, unless that was absent or empty. */
  lemma EchoRestores(tags: seq<Tag>, src: seq<byte>, pre: seq<Tag>, post: seq<Tag>)
    requires |src| == 6 && forall k :: 0 <= k < |pre| ==> pre[k].typ != RELAY_SID
    ensures var reply := pre + [Relayed(tags, src)[0]] + post;
            && IsOurs(reply) && Client(reply) == src
            && Unrelayed(reply) == pre + (if OldData(tags) == [] then [] else [Tag(RELAY_SID, OldData(tags))]) + post
  {
    var t := Relayed(tags, src)[0];
    assert t.data[..2] == MAGIC && t.data[2..8] == src && t.data[8..] == OldData(tags);
    UnrelayedAround(pre, t, post);
  }

  lemma UnrelayedAround(pre: seq<Tag>, t: Tag, post: seq<Tag>)
    requires t.typ == RELAY_SID && |t.data| >= 8 && t.data[..2] == MAGIC
    requires forall k :: 0 <= k < |pre| ==> pre[k].typ != RELAY_SID
    ensures var reply := pre + [t] + post;
            && IsOurs(reply) && Client(reply) == t.data[2..8]
            && Unrelayed(reply) == pre + (if t.data[8..] == [] then [] else [Tag(RELAY_SID, t.data[8..])]) + post
  {
    var reply := pre + [t] + post;
    FirstAfter(pre, t, post, RELAY_SID);
    if |t.data| == 8 {
      assert reply[..|pre|] + reply[|pre| + 1..] == pre + [] + post;
    } else {
      assert reply[|pre| := Tag(RELAY_SID, t.data[8..])] == pre + [Tag(RELAY_SID, t.data[8..])] + post;
    }
  }

  /** Inserting and then removing leaves the other tags, behind the old relay tag if
      that was present and non-empty. */
  lemma RoundTrip(tags: seq<Tag>, src: seq<byte>)
    requires |src| == 6
    ensures IsOurs(Relayed(tags, src)) && Client(Relayed(tags, src)) == src
    ensures Unrelayed(Relayed(tags, src))
         == (if OldData(tags) == [] then [] else [Tag(RELAY_SID, OldData(tags))]) + Without(tags, FirstOf(tags, RELAY_SID))
  {
    var t, rest := Relayed(tags, src)[0], Without(tags, FirstOf(tags, RELAY_SID));
    assert t.data[..2] == MAGIC && t.data[2..8] == src && t.data[8..] == OldData(tags);
    assert [] + [t] + rest == Relayed(tags, src);
    UnrelayedAround([], t, rest);
  }

  /** So the tags come back, an old relay tag moved to the front, exactly when an old
      relay tag is absent or non-empty. */
  lemma RoundTripIff(tags: seq<Tag>, src: seq<byte>)
    requires |src| == 6
    ensures IsOurs(Relayed(tags, src))
    ensures var i := FirstOf(tags, RELAY_SID);
            Unrelayed(Relayed(tags, src)) == (if i < |tags| then [tags[i]] else []) + Without(tags, i)
            <==> (i == |tags| || tags[i].data != [])
  {
    RoundTrip(tags, src);
    var i := FirstOf(tags, RELAY_SID);
    var u := Unrelayed(Relayed(tags, src));
    if i == |tags| {
      assert OldData(tags) == [];
    } else if tags[i].data == [] {
      assert |u| == |Without(tags, i)|;
    } else {
      assert Tag(RELAY_SID, OldData(tags)) == tags[i];
    }
  }

  /** For example a list of just an empty relay tag comes back empty. */
  lemma EmptyRelayIsLost(src: seq<byte>)
    requires |src| == 6
    ensures var tags := [Tag(RELAY_SID, [])];
            IsOurs(Relayed(tags, src)) && Unrelayed(Relayed(tags, src)) == []
  {
    var tags := [Tag(RELAY_SID, [])];
    RoundTrip(tags, src);
    assert FirstOf(tags, RELAY_SID) == 0 && Without(tags, 0) == [];
  }

  /** A relay tag on the wire: type 0x0110 and length in network order, the magic code
      0x8186, the client's address, and the value of the tag it stands for. */
  lemma RelayTagBytes(tags: seq<Tag>, src: seq<byte>)
    requires |src| == 6 && |OldData(tags)| < 0x8000
    ensures var t, n := Relayed(tags, src)[0], 8 + |OldData(tags)|;
            && t.Valid()
            && t.Bytes() == [0x01, 0x10, n / 256, n % 256, 0x81, 0x86] + src + OldData(tags)
  {
  }

  /** The other tags of a relayed packet are those it had, in order, less its first relay
      tag. */
  lemma RelayedMeaning(tags: seq<Tag>, src: seq<byte>, i: nat)
    requires i <= |tags| && (i < |tags| ==> tags[i].typ == 0x0110) && forall k :: 0 <= k < i ==> tags[k].typ != 0x0110
    ensures Relayed(tags, src)[1..] == if i < |tags| then tags[..i] + tags[i + 1..] else tags
    ensures OldData(tags) == if i < |tags| then tags[i].data else []
  {
    FirstIs(tags, 0x0110, i);
  }

  lemma FirstIs(tags: seq<Tag>, typ: nat, i: nat)
    requires i <= |tags| && (i < |tags| ==> tags[i].typ == typ) && forall k :: 0 <= k < i ==> tags[k].typ != typ
    ensures FirstOf(tags, typ) == i
  {
  }

  /** An answer is ours exactly when its first relay tag starts with the magic code and has
      room for an address: any other is refused. */
  lemma IsOursIff(tags: seq<Tag>)
    ensures IsOurs(tags) <==>
              exists i :: 0 <= i < |tags| && tags[i].typ == 0x0110 && (forall k :: 0 <= k < i ==> tags[k].typ != 0x0110)
                          && |tags[i].data| >= 8 && tags[i].data[0] == 0x81 && tags[i].data[1] == 0x86
  {
    var j := FirstOf(tags, RELAY_SID);
    forall i | 0 <= i < |tags| && tags[i].typ == 0x0110 && (forall k :: 0 <= k < i ==> tags[k].typ != 0x0110) ensures i == j {
      FirstIs(tags, 0x0110, i);
    }
    if j < |tags| && |tags[j].data| >= 8 {
      assert tags[j].data[..2] == [tags[j].data[0], tags[j].data[1]];
    }
  }

  // ---------------------------------------------------------------------------
  // Serialised lists
  // ---------------------------------------------------------------------------

  lemma SerCons(t: Tag, tags: seq<Tag>)
    requires t.Valid() && AllValid(tags)
    ensures AllValid([t] + tags) && Ser([t] + tags) == t.Bytes() + Ser(tags)
  {
    assert ([t] + tags)[1..] == tags;
  }

  lemma Assoc(a: seq<byte>, b: seq<byte>, c: seq<byte>)
    ensures a + (b + c) == (a + b) + c
  {
  }

  lemma {:induction false} SerAppend(a: seq<Tag>, b: seq<Tag>)
    requires AllValid(a) && AllValid(b)
    ensures AllValid(a + b) && Ser(a + b) == Ser(a) + Ser(b)
    decreases |a|
  {
    if a == [] {
      assert a + b == b;
    } else {
      var t, r := a[0], a[1..];
      SerAppend(r, b);
      SerCons(t, r + b);
      assert a + b == [t] + (r + b);
      Assoc(t.Bytes(), Ser(r), Ser(b));
    }
  }

  lemma SerOne(t: Tag)
    requires t.Valid()
    ensures AllValid([t]) && Ser([t]) == t.Bytes()
  {
    assert [t][1..] == [];
  }

  /** Number of bytes before tag `i`. */
  ghost function At(tags: seq<Tag>, i: nat): nat
    requires AllValid(tags) && i <= |tags|
  {
    |Ser(tags[..i])|
  }

  /** A list with tag `i` replaced by `mid`. */
  lemma SerAround(tags: seq<Tag>, i: nat, mid: seq<Tag>)
    requires AllValid(tags) && i < |tags| && AllValid(mid)
    ensures AllValid(tags[..i]) && AllValid(tags[i + 1..]) && AllValid(tags[..i] + mid + tags[i + 1..])
    ensures Ser(tags[..i] + mid + tags[i + 1..]) == Ser(tags[..i]) + Ser(mid) + Ser(tags[i + 1..])
  {
    SerAppend(tags[..i], mid);
    SerAppend(tags[..i] + mid, tags[i + 1..]);
  }

  /** The bytes of tag `i` in a packet, with what stands before and after them. */
  lemma Locate(b: seq<byte>, tags: seq<Tag>, i: nat) returns (pre: seq<byte>, post: seq<byte>)
    requires AllValid(tags) && i < |tags| && Ser(tags) <= b
    ensures b == pre + tags[i].Bytes() + post && |pre| == At(tags, i)
    ensures pre == Ser(tags[..i]) && AllValid(tags[i + 1..]) && Ser(tags[i + 1..]) <= post
    ensures |Ser(tags)| == |pre| + 4 + |tags[i].data| + |Ser(tags[i + 1..])|
  {
    var rest := Ser(tags[i + 1..]);
    SerSplit(tags, i);
    pre := Ser(tags[..i]);
    post := rest + b[|Ser(tags)|..];
    PrefixSplit(b, pre, tags[i].Bytes(), rest);
  }

  /** The list on the wire, cut at tag `i`. */
  lemma SerSplit(tags: seq<Tag>, i: nat)
    requires AllValid(tags) && i < |tags|
    ensures AllValid(tags[..i]) && AllValid(tags[i + 1..])
    ensures Ser(tags) == Ser(tags[..i]) + tags[i].Bytes() + Ser(tags[i + 1..])
  {
    SerParts(tags[..i], tags[i], tags[i + 1..]);
    CutAt(tags, i);
  }

  lemma SerParts(pre: seq<Tag>, t: Tag, post: seq<Tag>)
    requires AllValid(pre) && t.Valid() && AllValid(post)
    ensures AllValid(pre + ([t] + post)) && Ser(pre + ([t] + post)) == Ser(pre) + t.Bytes() + Ser(post)
  {
    SerCons(t, post);
    SerAppend(pre, [t] + post);
    Assoc(Ser(pre), t.Bytes(), Ser(post));
  }

  lemma CutAt(tags: seq<Tag>, i: nat)
    requires i < |tags|
    ensures tags == tags[..i] + ([tags[i]] + tags[i + 1..])
  {
  }

  lemma PrefixSplit(b: seq<byte>, pre: seq<byte>, mid: seq<byte>, rest: seq<byte>)
    requires pre + mid + rest <= b
    ensures b == pre + mid + (rest + b[|pre + mid + rest|..])
  {
  }

  lemma AtSucc(tags: seq<Tag>, i: nat)
    requires AllValid(tags) && i < |tags|
    ensures At(tags, i + 1) == At(tags, i) + 4 + |tags[i].data| <= |Ser(tags)|
  {
    var pre, post := Locate(Ser(tags), tags, i);
    SerOne(tags[i]);
    SerAppend(tags[..i], [tags[i]]);
    assert tags[..i + 1] == tags[..i] + [tags[i]];
  }

  lemma AtEnd(tags: seq<Tag>)
    requires AllValid(tags)
    ensures At(tags, |tags|) == |Ser(tags)|
  {
    assert tags[..|tags|] == tags;
  }

  /** Reading a tag in place. */
  lemma HeaderOf(b: seq<byte>, pre: seq<byte>, t: Tag, post: seq<byte>)
    requires t.Valid() && b == pre + t.Bytes() + post
    ensures |pre| + 4 + |t.data| <= |b|
    ensures U16At(b, |pre|) == t.typ && U16At(b, |pre| + 2) == |t.data|
    ensures b[|pre| + 4..|pre| + 4 + |t.data|] == t.data
  {
    var p, s := |pre|, t.Bytes();
    assert b[p] == s[0] && b[p + 1] == s[1] && b[p + 2] == s[2] && b[p + 3] == s[3];
    assert s[4..] == t.data;
  }

  lemma HeaderAt(b: seq<byte>, tags: seq<Tag>, i: nat)
    requires AllValid(tags) && i < |tags| && Ser(tags) <= b
    ensures var p, n := At(tags, i), |tags[i].data|;
            && p + 4 + n <= |Ser(tags)|
            && U16At(b, p) == tags[i].typ && U16At(b, p + 2) == n
            && b[p + 4..p + 4 + n] == tags[i].data
  {
    var pre, post := Locate(b, tags, i);
    HeaderOf(b, pre, tags[i], post);
  }

  /** The end of a walk along the tags; `PastEnd` when it reads outside the packet. */
  datatype Search = Found(at: nat) | Absent | PastEnd

  /** The walk for a tag of type `typ` along the first `length` bytes, from `cur` on. */
  function Scan(b: seq<byte>, length: nat, cur: nat, typ: nat): (r: Search)
    ensures r.Found? ==> cur <= r.at < length && r.at + 4 <= |b| && U16At(b, r.at) == typ
    decreases length - cur
  {
    if cur >= length then Absent
    else if cur + 4 > |b| then PastEnd
    else if U16At(b, cur) == typ then Found(cur)
    else Scan(b, length, cur + 4 + U16At(b, cur + 2), typ)
  }

  /** Headers of types `types` stand at offsets `pos`, each leading to the next. */
  ghost predicate Headers(b: seq<byte>, length: nat, pos: seq<nat>, types: seq<nat>) {
    && |pos| == |types| + 1 && pos[|types|] == length
    && forall k {:trigger types[k]} :: 0 <= k < |types| ==> Leads(b, length, pos[k], types[k], pos[k + 1])
  }

  /** The header at `p` has type `typ`, and its length leads to `next`. */
  predicate Leads(b: seq<byte>, length: nat, p: nat, typ: nat, next: nat) {
    p < length && p + 4 <= |b| && U16At(b, p) == typ && p + 4 + U16At(b, p + 2) == next
  }

  lemma {:induction false} ScanHeaders(b: seq<byte>, length: nat, pos: seq<nat>, types: seq<nat>, n: nat, i: nat, typ: nat)
    requires Headers(b, length, pos, types) && n <= i <= |types|
    requires (i < |types| ==> types[i] == typ) && forall k :: 0 <= k < i ==> types[k] != typ
    ensures Scan(b, length, pos[n], typ) == if i < |types| then Found(pos[i]) else Absent
    decreases i - n
  {
    if n < |types| {
      ScanStep(b, length, pos[n], types[n], pos[n + 1], typ);
      if n < i {
        ScanHeaders(b, length, pos, types, n + 1, i, typ);
      }
    }
  }

  lemma ScanStep(b: seq<byte>, length: nat, p: nat, t: nat, next: nat, typ: nat)
    requires Leads(b, length, p, t, next)
    ensures Scan(b, length, p, typ) == if t == typ then Found(p) else Scan(b, length, next, typ)
  {
  }

  ghost function Positions(tags: seq<Tag>): (pos: seq<nat>)
    requires AllValid(tags)
    ensures |pos| == |tags| + 1 && forall k :: 0 <= k <= |tags| ==> pos[k] == At(tags, k)
  {
    seq(|tags| + 1, k requires 0 <= k <= |tags| => At(tags, k))
  }

  function Types(tags: seq<Tag>): (types: seq<nat>)
    ensures |types| == |tags| && forall k :: 0 <= k < |tags| ==> types[k] == tags[k].typ
  {
    seq(|tags|, k requires 0 <= k < |tags| => tags[k].typ)
  }

  lemma HeadersOf(b: seq<byte>, tags: seq<Tag>)
    requires AllValid(tags) && Ser(tags) <= b
    ensures Headers(b, |Ser(tags)|, Positions(tags), Types(tags))
  {
    AtEnd(tags);
    forall k | 0 <= k < |tags|
      ensures Leads(b, |Ser(tags)|, Positions(tags)[k], Types(tags)[k], Positions(tags)[k + 1])
    {
      ScanHere(b, tags, k);
    }
  }

  /** On a well-formed list the walk stays inside the packet and ends at the first tag
      of the type, if there is one. */
  lemma ScanFinds(b: seq<byte>, tags: seq<Tag>, typ: nat)
    requires AllValid(tags) && Ser(tags) <= b
    ensures var i := FirstOf(tags, typ);
            Scan(b, |Ser(tags)|, 0, typ) == if i < |tags| then Found(At(tags, i)) else Absent
  {
    HeadersOf(b, tags);
    ScanHeaders(b, |Ser(tags)|, Positions(tags), Types(tags), 0, FirstOf(tags, typ), typ);
  }

  lemma ScanHere(b: seq<byte>, tags: seq<Tag>, n: nat)
    requires AllValid(tags) && Ser(tags) <= b && n < |tags|
    ensures Leads(b, |Ser(tags)|, At(tags, n), tags[n].typ, At(tags, n + 1))
  {
    HeaderAt(b, tags, n);
    AtSucc(tags, n);
  }

  // ---------------------------------------------------------------------------
  // The packet
  // ---------------------------------------------------------------------------

  /** A 16-bit field in network order, read by a host without conversion. */
  function HostRead(x: nat, bigEndian: bool): nat {
    if bigEndian then x else 256 * (x % 256) + x / 256
  }

  /** The unconverted length is right exactly on a big-endian host; elsewhere it asks
      for at least 2052 bytes of room. */
  lemma HostReadIff(oldLen: nat, bigEndian: bool)
    requires oldLen <= 28
    ensures HostRead(8 + oldLen, bigEndian) == 8 + oldLen <==> bigEndian
    ensures !bigEndian ==> HostRead(8 + oldLen, bigEndian) + 4 >= 2052
  {
  }

  class Packet {
    const bigEndian: bool
    var dst: seq<byte>
    var src: seq<byte>
    var length: nat
    /** Everything after the PPPoE header; the tags are its first `length` bytes. */
    var body: seq<byte>
    var tailroom: nat

    ghost predicate Holds(tags: seq<Tag>)
      reads this
    {
      AllValid(tags) && length == |Ser(tags)| && Ser(tags) <= body
    }

    constructor (bigEndian: bool, dst: seq<byte>, src: seq<byte>, length: nat, body: seq<byte>, tailroom: nat)
      ensures this.bigEndian == bigEndian && this.dst == dst && this.src == src
      ensures this.length == length && this.body == body && this.tailroom == tailroom
    {
      this.bigEndian, this.dst, this.src := bigEndian, dst, src;
      this.length, this.body, this.tailroom := length, body, tailroom;
    }

    /** `__nat25_find_pppoe_tag`, on any packet. */
    method FindTag(typ: nat) returns (r: Search)
      ensures r == Scan(body, length, 0, typ)
    {
      var cur := 0;
      while cur < length
        invariant Scan(body, length, 0, typ) == Scan(body, length, cur, typ)
        decreases length - cur
      {
        if cur + 4 > |body| {
          return PastEnd;
        }
        var tagType, tagLen := U16At(body, cur), U16At(body, cur + 2);
        if tagType == typ {
          return Found(cur);
        }
        cur := cur + 4 + tagLen;
      }
      return Absent;
    }

    /** The same on a well-formed list: offset of the first tag of the type, or -1. */
    method FindFirst(typ: nat, ghost tags: seq<Tag>) returns (at: int)
      requires Holds(tags)
      ensures var i := FirstOf(tags, typ); at == if i < |tags| then At(tags, i) else -1
    {
      ScanFinds(body, tags, typ);
      var r := FindTag(typ);
      at := if r.Found? then r.at else -1;
    }

    /** `skb_pull_and_merge`, at an offset from the first tag. */
    method PullAndMerge(at: nat, len: nat) returns (ok: bool)
      modifies this`body, this`tailroom
      ensures ok <==> at + len <= |old(body)|
      ensures ok ==> body == old(body)[..at] + old(body)[at + len..] && tailroom == old(tailroom) + len
      ensures !ok ==> body == old(body) && tailroom == old(tailroom)
    {
      if at + len > |body| {
        return false;
      }
      body := body[..at] + body[at + len..];
      tailroom := tailroom + len;
      return true;
    }

    /** `__nat25_add_pppoe_tag`; `fill` is what the room added at the tail held. */
    method AddTag(tag: Tag, fill: byte, ghost tags: seq<Tag>) returns (ok: bool)
      requires Holds(tags) && tag.Valid() && 8 <= |tag.data| <= 36
      requires bigEndian || tailroom < 2052
      modifies this`length, this`body, this`tailroom
      ensures ok <==> bigEndian && old(tailroom) >= 4 + |tag.data|
      ensures ok ==> Holds([tag] + tags) && tailroom == old(tailroom) - 4 - |tag.data|
      ensures !ok ==> body == old(body) && length == old(length) && tailroom == old(tailroom)
    {
      HostReadIff(|tag.data| - 8, bigEndian);
      var dataLen := HostRead(|tag.data|, bigEndian) + 4;
      if tailroom < dataLen {
        return false;
      }
      var grown := body + seq(dataLen, _ => fill);
      tailroom := tailroom - dataLen;
      body := tag.Bytes() + grown[..length] + grown[dataLen + length..];
      length := length + dataLen;
      assert grown[..old(length)] == Ser(tags);
      assert ([tag] + tags)[1..] == tags;
      assert Ser([tag] + tags) == tag.Bytes() + Ser(tags);
      return true;
    }

    /** The outgoing PADI or PADR with the relay option on (lines 1110-1149). */
    method InsertRelay(fill: byte, ghost tags: seq<Tag>) returns (ok: bool)
      requires Holds(tags) && |src| == 6
      requires bigEndian || tailroom + 32 < 2052
      modifies this`length, this`body, this`tailroom
      ensures var data := OldData(tags);
              ok <==> bigEndian && |data| <= 28 &&
                      old(tailroom) + (if FirstOf(tags, RELAY_SID) < |tags| then 4 + |data| else 0) >= 12 + |data|
      ensures ok ==> Holds(Relayed(tags, src))
      ensures |OldData(tags)| > 28 ==> Holds(tags) && body == old(body) && tailroom == old(tailroom)
      ensures !ok && |OldData(tags)| <= 28 ==> Holds(Without(tags, FirstOf(tags, RELAY_SID)))
    {
      var oldData;
      ok, oldData := DetachOld(tags);
      if ok {
        var tag := Tag(RELAY_SID, MAGIC + src + oldData);
        ok := AddTag(tag, fill, Without(tags, FirstOf(tags, RELAY_SID)));
      }
    }

    /** Copy an existing relay tag's value and delete the tag (lines 1118-1134). */
    method DetachOld(ghost tags: seq<Tag>) returns (ok: bool, oldData: seq<byte>)
      requires Holds(tags)
      modifies this`length, this`body, this`tailroom
      ensures ok <==> |OldData(tags)| <= 28
      ensures ok ==> oldData == OldData(tags) && Holds(Without(tags, FirstOf(tags, RELAY_SID)))
      ensures ok ==> tailroom == old(tailroom) + if FirstOf(tags, RELAY_SID) < |tags| then 4 + |OldData(tags)| else 0
      ensures !ok ==> Holds(tags) && body == old(body) && tailroom == old(tailroom)
    {
      ghost var i := FirstOf(tags, RELAY_SID);
      var at := FindFirst(RELAY_SID, tags);
      if at < 0 {
        return true, [];
      }
      var oldLen := TagLength(at, tags, i);
      if oldLen + 4 + 2 + 6 > TAG_BUF {
        return false, [];
      }
      oldData := body[at + 4..at + 4 + oldLen];
      assert oldData == OldData(tags);
      CutOut(at, 4 + oldLen, tags, i);
      ok := true;
    }

    /** The length field of tag `i`, which spans its data. */
    method TagLength(at: nat, ghost tags: seq<Tag>, ghost i: nat) returns (n: nat)
      requires Holds(tags) && i < |tags| && at == At(tags, i)
      ensures n == |tags[i].data| && at + 4 + n <= length <= |body| && body[at + 4..at + 4 + n] == tags[i].data
    {
      HeaderAt(body, tags, i);
      n := U16At(body, at + 2);
    }

    /** Remove tag `i` from the packet. */
    method CutOut(at: nat, n: nat, ghost tags: seq<Tag>, ghost i: nat)
      requires Holds(tags) && i < |tags| && at == At(tags, i) && n == 4 + |tags[i].data| && at + n <= length
      modifies this`length, this`body, this`tailroom
      ensures Holds(Without(tags, i)) && tailroom == old(tailroom) + n
    {
      CutTag(body, tags, i);
      var merged := PullAndMerge(at, n);
      assert merged;
      length := length - n;
    }

    /** The incoming PADO or PADS with the relay option on (lines 1181-1224). */
    method RemoveRelay(ghost tags: seq<Tag>) returns (ok: bool)
      requires Holds(tags)
      modifies this`dst, this`length, this`body, this`tailroom
      ensures ok <==> IsOurs(tags)
      ensures ok ==> dst == Client(tags) && AllValid(Unrelayed(tags)) && Holds(Unrelayed(tags))
      ensures !ok ==> dst == old(dst) && Holds(tags) && body == old(body)
    {
      ghost var i := FirstOf(tags, RELAY_SID);
      var at := FindFirst(RELAY_SID, tags);
      if at < 0 {
        return false;
      }
      var tagLen := TagLength(at, tags, i);
      if tagLen < 8 {
        return false;
      }
      DataParts(body, at, tags[i].data);
      if body[at + 4..at + 6] != MAGIC {
        return false;
      }
      dst := body[at + 6..at + 12];
      Unwrap(at, tagLen, tags, i);
      return true;
    }

    /** A packet that is relayed and comes back as it left: it is addressed to its sender,
        and its tags are restored, behind the old relay tag if that was non-empty. */
    method ThereAndBack(fill: byte, ghost tags: seq<Tag>) returns (ok: bool)
      requires Holds(tags) && |src| == 6
      requires bigEndian || tailroom + 32 < 2052
      modifies this`dst, this`length, this`body, this`tailroom
      ensures var data := OldData(tags);
              ok <==> bigEndian && |data| <= 28 &&
                      old(tailroom) + (if FirstOf(tags, RELAY_SID) < |tags| then 4 + |data| else 0) >= 12 + |data|
      ensures var rest := Without(tags, FirstOf(tags, RELAY_SID));
              ok ==> dst == src && Holds((if OldData(tags) == [] then [] else [Tag(RELAY_SID, OldData(tags))]) + rest)
    {
      RoundTrip(tags, src);
      ok := InsertRelay(fill, tags);
      if ok {
        ok := RemoveRelay(Relayed(tags, src));
      }
    }

    /** Cut magic code and MAC, and the header too if nothing else is left. */
    method Unwrap(at: nat, tagLen: nat, ghost tags: seq<Tag>, ghost i: nat)
      requires Holds(tags) && IsOurs(tags) && i == FirstOf(tags, RELAY_SID)
      requires at == At(tags, i) && tagLen == |tags[i].data| && at + 4 + tagLen <= length
      modifies this`length, this`body, this`tailroom
      ensures AllValid(Unrelayed(tags)) && Holds(Unrelayed(tags))
    {
      if tagLen > 8 {
        ShrinkTag(body, tags, i);
        var merged := PullAndMerge(at + 4, 8);
        assert merged;
        length := length - 8;
        body := body[..at + 2] + U16Bytes(tagLen - 8) + body[at + 4..];
        assert body == Shrunk(old(body), at, tagLen - 8);
      } else {
        CutOut(at, 12, tags, i);
      }
    }
  }

  /** Cutting the bytes of a tag out of a packet removes it from the list. */
  lemma CutTag(b: seq<byte>, tags: seq<Tag>, i: nat)
    requires AllValid(tags) && i < |tags| && Ser(tags) <= b
    requires At(tags, i) + 4 + |tags[i].data| <= |b|
    ensures var p, n := At(tags, i), 4 + |tags[i].data|;
            && AllValid(Without(tags, i))
            && |Ser(Without(tags, i))| == |Ser(tags)| - n
            && Ser(Without(tags, i)) <= b[..p] + b[p + n..]
  {
    var pre, post := Locate(b, tags, i);
    SerAppend(tags[..i], tags[i + 1..]);
    CutBytes(b, pre, tags[i].Bytes(), post);
    PrefixAppend(pre, Ser(tags[i + 1..]), post);
  }

  lemma CutBytes(b: seq<byte>, pre: seq<byte>, t: seq<byte>, post: seq<byte>)
    requires b == pre + t + post
    ensures b[..|pre|] + b[|pre| + |t|..] == pre + post
  {
  }

  lemma PrefixAppend(a: seq<byte>, x: seq<byte>, y: seq<byte>)
    requires x <= y
    ensures a + x <= a + y
  {
  }

  /** Cutting eight bytes off the front of a tag's data and rewriting its length. */
  lemma ShrinkTag(b: seq<byte>, tags: seq<Tag>, i: nat)
    requires AllValid(tags) && i < |tags| && Ser(tags) <= b && |tags[i].data| > 8
    requires At(tags, i) + 12 <= |b|
    ensures var p, t := At(tags, i), Tag(tags[i].typ, tags[i].data[8..]);
            && AllValid(tags[i := t])
            && |Ser(tags[i := t])| == |Ser(tags)| - 8
            && Ser(tags[i := t]) <= Shrunk(b, p, |tags[i].data| - 8)
  {
    var pre, post := Locate(b, tags, i);
    var t := Tag(tags[i].typ, tags[i].data[8..]);
    SerOne(t);
    SerAround(tags, i, [t]);
    assert tags[..i] + [t] + tags[i + 1..] == tags[i := t];
    ShrinkBytes(b, pre, tags[i], post);
    PrefixAppend(pre + t.Bytes(), Ser(tags[i + 1..]), post);
  }

  lemma DataParts(b: seq<byte>, at: nat, data: seq<byte>)
    requires at + 4 + |data| <= |b| && b[at + 4..at + 4 + |data|] == data && |data| >= 8
    ensures b[at + 4..at + 6] == data[..2] && b[at + 6..at + 12] == data[2..8]
  {
    SliceOfSlice(b, at + 4, at + 4 + |data|, 0, 2);
    SliceOfSlice(b, at + 4, at + 4 + |data|, 2, 8);
  }

  lemma SliceOfSlice(b: seq<byte>, i: nat, j: nat, m: nat, n: nat)
    requires i <= j <= |b| && m <= n <= j - i
    ensures b[i..j][m..n] == b[i + m..i + n]
  {
    forall k | 0 <= k < n - m ensures b[i..j][m..n][k] == b[i + m..i + n][k] {
    }
  }

  /** A packet after the cut at `p + 4` and the rewrite of the length at `p + 2`. */
  function Shrunk(b: seq<byte>, p: nat, n: nat): seq<byte>
    requires p + 12 <= |b| && n < 0x10000
  {
    b[..p + 2] + U16Bytes(n) + b[p + 12..]
  }

  lemma ShrinkBytes(b: seq<byte>, pre: seq<byte>, t: Tag, post: seq<byte>)
    requires t.Valid() && |t.data| > 8 && b == pre + t.Bytes() + post
    ensures Shrunk(b, |pre|, |t.data| - 8) == pre + Tag(t.typ, t.data[8..]).Bytes() + post
  {
    var p, n := |pre|, |t.data| - 8;
    assert b[..p + 2] == pre + U16Bytes(t.typ);
    assert b[p + 12..] == t.data[8..] + post;
  }
}
