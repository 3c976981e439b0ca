/** The DHCP broadcast rewrite (aic_br_ext.c): setting the flag in a request and
    updating the UDP checksum incrementally (compare section 3 of RFC 1624).

    A datagram is the sequence of 16-bit words, pseudo header included, over which
    the one's-complement sum is taken. */
module DhcpChecksum {

  const ONES: nat := 0xffff

  type u16 = x: int | 0 <= x < 0x10000

  function Sum(ws: seq<u16>): nat {
    if ws == [] then 0 else Sum(ws[..|ws| - 1]) + ws[|ws| - 1]
  }

  /** Fold the carries of a sum back into 16 bits. */
  function Fold(n: nat): (r: nat)
    ensures r <= ONES
  {
    if n < 0x10000 then n else Fold(n % 0x10000 + n / 0x10000)
  }

  lemma ModShift(x: int, q: int)
    ensures (x + q * 0xffff) % 0xffff == x % 0xffff
  {
  }

  /** Folding keeps a sum modulo 65535, and keeps it from or at zero. */
  lemma {:induction false} FoldCongruent(n: nat)
    ensures Fold(n) % 0xffff == n % 0xffff
    ensures Fold(n) == 0 <==> n == 0
  {
    if n >= 0x10000 {
      var lo, hi := n % 0x10000, n / 0x10000;
      assert n == (lo + hi) + hi * 0xffff;
      ModShift(lo + hi, hi);
      FoldCongruent(lo + hi);
    }
  }

  /** The receiver's test. */
  predicate Verifies(ws: seq<u16>) { Fold(Sum(ws)) == ONES }

  lemma VerifiesIff(ws: seq<u16>)
    ensures Verifies(ws) <==> Sum(ws) > 0 && Sum(ws) % 0xffff == 0
  {
    FoldCongruent(Sum(ws));
  }

  lemma {:induction false} SumUpdate(ws: seq<u16>, i: nat, x: u16)
    requires i < |ws|
    ensures Sum(ws[i := x]) == Sum(ws) - ws[i] + x
    decreases |ws|
  {
    var n := |ws| - 1;
    if i < n {
      assert ws[i := x][..n] == ws[..n][i := x];
      SumUpdate(ws[..n], i, x);
    } else {
      assert ws[i := x][..n] == ws[..n];
    }
  }

  /** `flag` is the broadcast bit as the host sees it in a word in network order:
      0x8000 on a big-endian host, 0x0080 on a little-endian one. */
  predicate IsFlag(flag: int) { flag == 0x8000 || flag == 0x0080 }

  predicate FlagSet(w: u16, flag: int)
    requires IsFlag(flag)
  {
    if flag == 0x8000 then w / 0x8000 % 2 == 1 else w / 0x0080 % 2 == 1
  }

  function NewCheck(check: u16, flags: u16): u16 { ONES - Fold(ONES - check + flags) }

  /** The datagram after the rewrite, with the checksum at `c` and the flags at `f`. */
  function Rewritten(ws: seq<u16>, c: nat, f: nat, flag: int): seq<u16>
    requires c < |ws| && f < |ws| && IsFlag(flag)
  {
    if FlagSet(ws[f], flag) then ws
    else ws[f := ws[f] + flag][c := NewCheck(ws[c], ws[f] + flag)]
  }

  method DhcpFlagBcast(ws: array<u16>, c: nat, f: nat, flag: int)
    requires c < ws.Length && f < ws.Length && c != f && IsFlag(flag)
    modifies ws
    ensures ws[..] == Rewritten(old(ws[..]), c, f, flag)
  {
    if !FlagSet(ws[f], flag) {
      ws[f] := ws[f] + flag;
      var sum := ONES - ws[c];
      sum := sum + ws[f];
      ghost var start := sum;
      while sum / 0x10000 > 0
        invariant sum >= 0 && Fold(sum) == Fold(start)
        decreases sum
      {
        sum := sum % 0x10000 + sum / 0x10000;
      }
      ws[c] := ONES - sum;
    }
  }

  /** Modulo 65535 the new checksum is the old one less the whole flags word. */
  lemma NewCheckCongruent(check: u16, flags: u16)
    ensures (NewCheck(check, flags) + flags) % 0xffff == check % 0xffff
  {
    var s := ONES - check + flags;
    FoldCongruent(s);
    var q := s / 0xffff - Fold(s) / 0xffff;
    assert NewCheck(check, flags) + flags == check + q * 0xffff;
    ModShift(check, q);
  }

  /** A request with a valid checksum still verifies after the rewrite exactly when
      its flags were zero (or already had the bit, and nothing was done), because
      the update adds the whole flags word and not its change. */
  lemma RewriteVerifiesIff(ws: seq<u16>, c: nat, f: nat, flag: int)
    requires c < |ws| && f < |ws| && c != f && IsFlag(flag) && Verifies(ws)
    ensures Verifies(Rewritten(ws, c, f, flag)) <==> ws[f] == 0 || FlagSet(ws[f], flag)
  {
    if !FlagSet(ws[f], flag) {
      NewCheckCongruent(ws[c], ws[f] + flag);
      ReplacedVerifiesIff(ws, c, f, NewCheck(ws[c], ws[f] + flag), ws[f] + flag);
    }
  }

  /** The checksum that makes a datagram verify. */
  function GoodCheck(ws: seq<u16>, c: nat): u16
    requires c < |ws|
  {
    ONES - Fold(Sum(ws[c := 0]))
  }

  lemma GoodCheckVerifies(ws: seq<u16>, c: nat, i: nat)
    requires c < |ws| && i < |ws| && i != c && ws[i] > 0
    ensures Verifies(ws[c := GoodCheck(ws, c)])
  {
    var zero, good := ws[c := 0], ws[c := GoodCheck(ws, c)];
    var n := Sum(zero);
    SumAtLeast(zero, i);
    SumUpdate(zero, c, GoodCheck(ws, c));
    assert zero[c := GoodCheck(ws, c)] == good;
    FoldCongruent(n);
    var q := n / 0xffff - Fold(n) / 0xffff + 1;
    assert Sum(good) == 0 + q * 0xffff;
    ModShift(0, q);
    VerifiesIff(good);
  }

  /** Whatever the other words of a request are, with its right checksum and another bit
      of the flags set it verifies before the rewrite and not after it. */
  lemma RewriteCanFail(ws: seq<u16>, c: nat, f: nat, flag: int)
    requires c < |ws| && f < |ws| && c != f && IsFlag(flag) && ws[f] == 1
    ensures var w := ws[c := GoodCheck(ws, c)];
            Verifies(w) && !Verifies(Rewritten(w, c, f, flag))
  {
    GoodCheckVerifies(ws, c, f);
    RewriteVerifiesIff(ws[c := GoodCheck(ws, c)], c, f, flag);
  }

  /** Replacing the checksum by a value that cancels the new flags word but not the
      old one. */
  lemma ReplacedVerifiesIff(ws: seq<u16>, c: nat, f: nat, x: u16, y: u16)
    requires c < |ws| && f < |ws| && c != f && Verifies(ws)
    requires ws[f] < 0xffff && y > 0 && (x + y) % 0xffff == ws[c] % 0xffff
    ensures Verifies(ws[f := y][c := x]) <==> ws[f] == 0
  {
    VerifiesIff(ws);
    VerifiesIff(ws[f := y][c := x]);
    TwoUpdates(ws, c, f, x, y);
    Residue(Sum(ws), ws[f], ws[c], x + y);
  }

  lemma TwoUpdates(ws: seq<u16>, c: nat, f: nat, x: u16, y: u16)
    requires c < |ws| && f < |ws| && c != f
    ensures Sum(ws[f := y][c := x]) == Sum(ws) - ws[f] - ws[c] + (x + y)
    ensures Sum(ws[f := y][c := x]) >= y
  {
    var ws1 := ws[f := y];
    SumUpdate(ws, f, y);
    SumUpdate(ws1, c, x);
    SumAtLeast(ws1[c := x], f);
  }

  /** Replacing `check` by something congruent in a multiple of 65535, and dropping
      `flags`, leaves a multiple exactly when `flags` is zero. */
  lemma Residue(t: nat, flags: int, check: int, replacement: int)
    requires t % 0xffff == 0 && 0 <= flags < 0xffff && replacement % 0xffff == check % 0xffff
    ensures (t - flags - check + replacement) % 0xffff == 0 <==> flags == 0
  {
    var k, q := t / 0xffff, replacement / 0xffff - check / 0xffff;
    assert t - flags - check + replacement == -flags + (k + q) * 0xffff;
    ModShift(-flags, k + q);
  }

  lemma {:induction false} SumAtLeast(ws: seq<u16>, i: nat)
    requires i < |ws|
    ensures Sum(ws) >= ws[i]
    decreases |ws|
  {
    if i < |ws| - 1 { SumAtLeast(ws[..|ws| - 1], i); }
  }

  /** The rewrite of a request without the broadcast bit sets that bit, as the host reads
      it, keeps the other fifteen, and changes no word but flags and checksum; a request
      with the bit is left alone. */
  lemma RewriteMeaning(ws: seq<u16>, c: nat, f: nat, i: nat)
    requires c < |ws| && f < |ws| && c != f && i < |ws|
    ensures var big, little := Rewritten(ws, c, f, 0x8000), Rewritten(ws, c, f, 0x0080);
            && |big| == |ws| && |little| == |ws|
            && big[f] >= 0x8000 && big[f] % 0x8000 == ws[f] % 0x8000
            && (ws[f] >= 0x8000 ==> big == ws)
            && little[f] / 0x80 % 2 == 1 && little[f] % 0x80 == ws[f] % 0x80 && little[f] / 0x100 == ws[f] / 0x100
            && (ws[f] / 0x80 % 2 == 1 ==> little == ws)
            && (i != c && i != f ==> big[i] == ws[i] && little[i] == ws[i])
  {
  }
}
