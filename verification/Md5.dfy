/** Streaming MD5 (md5.c) against the one-shot definition of section 3 of RFC 1321.

    The block transform is a parameter, so every statement holds for each function
    of state and block and in particular for the rounds of `MD5Transform`. */
module Md5 {
  import opened Machine

  datatype Hash = Hash(a: u32, b: u32, c: u32, d: u32)

  type Transform = (Hash, seq<byte>) -> Hash

  const IV: Hash := Hash(0x67452301, 0xEFCDAB89, 0x98BADCFE, 0x10325476)

  // ---------------------------------------------------------------------------
  // The definition of RFC 1321
  // ---------------------------------------------------------------------------

  function Zeros(n: nat): (z: seq<byte>)
    ensures |z| == n
  {
    seq(n, _ => 0)
  }

  function Words(ws: seq<u32>): (s: seq<byte>)
    ensures |s| == 4 * |ws|
  {
    if ws == [] then [] else WordBytes(ws[0]) + Words(ws[1..])
  }

  /** Section 3.2: the length in bits modulo 2^64, low-order word first. */
  function LengthBytes(n: nat): (s: seq<byte>)
    ensures |s| == 8
  {
    WordBytes(8 * n % U32) + WordBytes(8 * n / U32 % U32)
  }

  /** Section 3.1: a single 1 bit, then 0 bits up to 56 modulo 64 bytes. */
  function PadLength(n: nat): nat {
    if n % 64 < 56 then 56 - n % 64 else 120 - n % 64
  }

  function Padded(m: seq<byte>): seq<byte> {
    m + ([0x80] + Zeros(PadLength(|m|) - 1)) + LengthBytes(|m|)
  }

  /** The state after the blocks of the first `end` bytes of `m`, a multiple of 64. */
  function Fold(f: Transform, m: seq<byte>, end: nat): Hash
    requires end <= |m|
  {
    if end < 64 then IV else f(Fold(f, m, end - 64), m[end - 64..end])
  }

  /** Sections 3.3 to 3.5. */
  function OneShot(f: Transform, m: seq<byte>): seq<byte> {
    var p := Padded(m);
    var h := Fold(f, p, |p|);
    Words([h.a, h.b, h.c, h.d])
  }

  lemma PaddingFillsBlocks(n: nat)
    ensures (n + PadLength(n) + 8) % 64 == 0 && 1 <= PadLength(n) <= 64
  {
    var q, r := n / 64, n % 64;
    assert n + PadLength(n) + 8 == 64 * (if r < 56 then q + 1 else q + 2);
  }

  /** The padded message is the message, a byte 0x80, zeros, and the number of its bits
      modulo 2^64 in eight bytes, low-order byte first. */
  lemma PaddedMeaning(m: seq<byte>)
    ensures var p, n := Padded(m), |m|;
            && |p| % 64 == 0 && n + 9 <= |p| < n + 9 + 64
            && p[..n] == m && p[n] == 0x80
            && (forall k :: n < k < |p| - 8 ==> p[k] == 0)
            && Value(p[|p| - 8..]) == 8 * n % 0x1_0000_0000_0000_0000
  {
    var p, n := Padded(m), |m|;
    PaddingFillsBlocks(n);
    assert p[|p| - 8..] == LengthBytes(n);
    ValueOfTwoWords(8 * n % U32, 8 * n / U32 % U32);
    TwoDigits(8 * n);
  }

  lemma TwoDigits(x: nat)
    ensures x % U32 + U32 * (x / U32 % U32) == x % 0x1_0000_0000_0000_0000
  {
    var q := x / U32;
    assert x == U32 * q + x % U32;
    assert q == U32 * (q / U32) + q % U32;
    assert x == 0x1_0000_0000_0000_0000 * (q / U32) + (U32 * (q % U32) + x % U32);
  }

  /** The initial state in the byte order of section 3.3. */
  lemma InitialBytes()
    ensures WordBytes(IV.a) + WordBytes(IV.b) + WordBytes(IV.c) + WordBytes(IV.d)
         == [0x01, 0x23, 0x45, 0x67, 0x89, 0xab, 0xcd, 0xef, 0xfe, 0xdc, 0xba, 0x98, 0x76, 0x54, 0x32, 0x10]
  {
  }

  /** Word `k` of an encoding stands at offset `4 * k`, low-order byte first. */
  lemma {:induction false} WordsAt(ws: seq<u32>, k: nat)
    requires k < |ws|
    ensures Value(Words(ws)[4 * k..4 * k + 4]) == ws[k]
    decreases k
  {
    var head, tail := WordBytes(ws[0]), Words(ws[1..]);
    if k == 0 {
      assert Words(ws)[0..4] == head;
      ValueOfWord(ws[0]);
    } else {
      assert Words(ws)[4 * k..4 * k + 4] == tail[4 * (k - 1)..4 * (k - 1) + 4];
      WordsAt(ws[1..], k - 1);
    }
  }

  lemma {:induction false} FoldPrefix(f: Transform, m: seq<byte>, t: seq<byte>, end: nat)
    requires end <= |m|
    ensures Fold(f, m + t, end) == Fold(f, m, end)
    decreases end
  {
    if end >= 64 {
      FoldPrefix(f, m, t, end - 64);
      assert (m + t)[end - 64..end] == m[end - 64..end];
    }
  }

  /** The definition of the fold: it starts from the initial state, and each block in
      turn goes through the transform. */
  lemma FoldStep(f: Transform, m: seq<byte>, end: nat)
    requires end + 64 <= |m|
    ensures Fold(f, m, 0) == IV
    ensures Fold(f, m, end + 64) == f(Fold(f, m, end), m[end..end + 64])
  {
  }

  /** Absorbing a block of the input. */
  lemma BlockStep(f: Transform, m: seq<byte>, input: seq<byte>, i: nat)
    requires i + 64 <= |input|
    ensures Fold(f, m + input, |m| + (i + 64)) == f(Fold(f, m + input, |m| + i), input[i..i + 64])
  {
    FoldStep(f, m + input, |m| + i);
    SliceOfAppend(m, input, i, 64);
  }

  // ---------------------------------------------------------------------------
  // Byte order
  // ---------------------------------------------------------------------------

  lemma TwoWords(x: u32, y: u32)
    ensures Words([x, y]) == WordBytes(x) + WordBytes(y)
  {
    assert [x, y][1..] == [y] && [y][1..] == [];
  }

  /** `MD5Encode`. */
  method Encode(input: seq<u32>) returns (output: seq<byte>)
    ensures output == Words(input)
  {
    output := [];
    var i := 0;
    while i < |input|
      invariant i <= |input| && output + Words(input[i..]) == Words(input)
    {
      var x := input[i];
      assert input[i..][1..] == input[i + 1..];
      output := output + [x % 256, x / 256 % 256, x / 256 / 256 % 256, x / 256 / 256 / 256 % 256];
      i := i + 1;
    }
  }

  /** `MD5Decode`: the inverse of the encoding on whole words. */
  method Decode(input: seq<byte>) returns (output: seq<u32>)
    requires |input| % 4 == 0
    ensures Words(output) == input
  {
    output := [];
    var j := 0;
    while j < |input|
      invariant j <= |input| && j % 4 == 0
      invariant Words(output) == input[..j]
    {
      var w := WordAt(input, j);
      WordsSnoc(output, w);
      output := output + [w];
      j := j + 4;
    }
  }

  lemma {:induction false} WordsSnoc(ws: seq<u32>, w: u32)
    ensures Words(ws + [w]) == Words(ws) + WordBytes(w)
    decreases |ws|
  {
    if ws == [] {
    } else {
      assert (ws + [w])[1..] == ws[1..] + [w];
      WordsSnoc(ws[1..], w);
    }
  }

  /** No two word sequences have the same encoding, so decoding recovers the words. */
  lemma {:induction false} WordsInjective(xs: seq<u32>, ys: seq<u32>)
    requires Words(xs) == Words(ys)
    ensures xs == ys
    decreases |xs|
  {
    if xs != [] {
      assert Words(xs)[..4] == WordBytes(xs[0]) && Words(ys)[..4] == WordBytes(ys[0]);
      WordBytesInjective(xs[0], ys[0]);
      assert Words(xs)[4..] == Words(xs[1..]) && Words(ys)[4..] == Words(ys[1..]);
      WordsInjective(xs[1..], ys[1..]);
      assert xs == [xs[0]] + xs[1..] && ys == [ys[0]] + ys[1..];
    }
  }

  // ---------------------------------------------------------------------------
  // The context
  // ---------------------------------------------------------------------------

  /** Offset at which the block loop of an update stops. */
  function LoopEnd(index: nat, n: nat): nat
    requires index < 64 && 64 - index <= n
  {
    n - (n - (64 - index)) % 64
  }

  /** The chunk fits a 32-bit length and the block loop's `i + 64` never wraps. */
  predicate ChunkFits(index: nat, n: nat)
    requires index < 64
  {
    n < U32 && (64 - index <= n ==> LoopEnd(index, n) + 64 < U32)
  }

  /** Otherwise the 32-bit test at the end of the input is true when it must be
      false, and the loop goes on to read past the chunk. */
  lemma WrappedTestOverruns(index: nat, n: nat)
    requires index < 64 && 64 - index <= n < U32
    ensures var i := LoopEnd(index, n); i + 64 > n && ((i + 64) % U32 <= n <==> !ChunkFits(index, n))
  {
  }

  /** For example the longest chunk, on an empty buffer: after the last whole block the
      test compares zero. */
  lemma LongestChunkOverruns()
    ensures !ChunkFits(0, 0xffff_ffff) && (LoopEnd(0, 0xffff_ffff) + 64) % U32 == 0
  {
  }

  /** The test of the block loop, in 32-bit arithmetic. */
  predicate LoopTest(i: nat, n: nat) { (i + 64) % U32 <= n }

  /** From offset `i` on the test says whether another block is left. */
  predicate TestsRight(i: nat, n: nat)
    decreases n - i
  {
    (LoopTest(i, n) <==> i + 64 <= n) && (i + 64 <= n ==> TestsRight(i + 64, n))
  }

  lemma {:induction false} FitsTestsRight(index: nat, n: nat, i: nat, k: nat)
    requires index < 64 && i == 64 - index + 64 * k <= n && ChunkFits(index, n)
    ensures TestsRight(i, n)
    decreases n - i
  {
    var d := (n - (64 - index)) % 64;
    assert n - d - i == 64 * ((n - (64 - index)) / 64 - k);
    if i + 64 <= n {
      FitsTestsRight(index, n, i + 64, k + 1);
    }
  }

  lemma ModestChunksFit(index: nat, n: nat)
    requires index < 64 && n + 64 < U32
    ensures ChunkFits(index, n)
  {
  }

  lemma SplitCarry(c: u32, hi: nat, low: u32)
    ensures (c + hi * U32 + low) % U32 == (c + low) % U32
    ensures (c + hi * U32 + low) / U32 == hi + (if (c + low) % U32 < low then 1 else 0)
  {
    if c + low < U32 {
      assert c + hi * U32 + low == hi * U32 + (c + low);
    } else {
      assert c + hi * U32 + low == (hi + 1) * U32 + (c + low - U32);
    }
  }

  /** Adding to a truncated two-word count keeps it the truncated total. */
  lemma CountGrows(m: nat, n: nat, c0: u32, c1: u32)
    requires c0 == 8 * m % U32 && c1 == 8 * m / U32 % U32
    ensures (c0 + 8 * n) % U32 == 8 * (m + n) % U32
    ensures (c1 + (c0 + 8 * n) / U32) % U32 == 8 * (m + n) / U32 % U32
  {
    var q, x := 8 * m / U32, c0 + 8 * n;
    assert 8 * (m + n) == q * U32 + x;
    DivShift(x, q);
    WrapAdd(q, x / U32);
  }

  lemma DivShift(x: nat, q: nat)
    ensures (q * U32 + x) / U32 == q + x / U32 && (q * U32 + x) % U32 == x % U32
  {
  }

  lemma WrapAdd(a: nat, b: nat)
    ensures (a % U32 + b) % U32 == (a + b) % U32
  {
    var q, r := a / U32, a % U32;
    assert a + b == q * U32 + (r + b);
    DivShift(r + b, q);
  }

  lemma SplitBy64(n: nat, q: nat, r: nat)
    requires n == 64 * q + r && r < 64
    ensures n % 64 == r && n - n % 64 == 64 * q
  {
  }

  lemma BitsWrap(n: nat)
    ensures 8 * n % U32 == 8 * (n % 0x2000_0000)
  {
    var q, r := n / 0x2000_0000, n % 0x2000_0000;
    assert 8 * n == q * 0x1_0000_0000 + 8 * r;
  }

  lemma IndexFromCount(n: nat)
    ensures 8 * n % U32 / 8 % 64 == n % 64
  {
    BitsWrap(n);
    var q, r := n / 0x2000_0000, n % 0x2000_0000;
    assert 8 * r / 8 == r;
    assert n == 64 * (q * 0x80_0000) + r;
  }

  /** A slice of the second part of a concatenation. */
  lemma SliceOfAppend(a: seq<byte>, b: seq<byte>, i: nat, n: nat)
    requires i + n <= |b|
    ensures (a + b)[|a| + i..|a| + i + n] == b[i..i + n]
  {
  }

  class Context {
    const transform: Transform
    var count0: u32
    var count1: u32
    var state: Hash
    const buffer: array<byte>
    /** Everything hashed so far. */
    ghost var msg: seq<byte>

    ghost predicate Valid()
      reads this, buffer
    {
      buffer.Length == 64 && Counted(|msg|) && Absorbed(msg)
    }

    /** The two words count `8 * n` bits, modulo 2^64. */
    ghost predicate Counted(n: nat)
      reads this`count0, this`count1
    {
      count0 == 8 * n % U32 && count1 == 8 * n / U32 % U32
    }

    /** The state is the fold over the complete blocks of `m`, the buffer holds the rest. */
    ghost predicate Absorbed(m: seq<byte>)
      reads this`state, buffer
    {
      state == Fold(transform, m, |m| - |m| % 64) && HoldsTail(m, |m| % 64)
    }

    /** The buffer starts with the last `n` bytes of `m`. */
    ghost predicate HoldsTail(m: seq<byte>, n: nat)
      reads buffer
    {
      n <= buffer.Length && n <= |m| && forall k :: 0 <= k < n ==> buffer[k] == m[|m| - n + k]
    }

    constructor Init(f: Transform)
      ensures Valid() && fresh(buffer) && msg == [] && transform == f
    {
      transform := f;
      count0, count1 := 0, 0;
      state := IV;
      buffer := new byte[64];
      msg := [];
    }

    method MemCopy(at: nat, src: seq<byte>)
      requires at + |src| <= buffer.Length
      modifies buffer
      ensures forall k :: 0 <= k < at ==> buffer[k] == old(buffer[k])
      ensures forall k :: at <= k < at + |src| ==> buffer[k] == src[k - at]
    {
      for i := 0 to |src|
        invariant forall k :: 0 <= k < at ==> buffer[k] == old(buffer[k])
        invariant forall k :: at <= k < at + i ==> buffer[k] == src[k - at]
      {
        buffer[at + i] := src[i];
      }
    }

    /** The two-word bit count: a 64-bit addition of `8 * n`. */
    method AddLength(n: u32)
      modifies this`count0, this`count1
      ensures count0 == (old(count0) + 8 * n) % U32
      ensures count1 == (old(count1) + (old(count0) + 8 * n) / U32) % U32
    {
      ghost var hi, lo := n / 0x2000_0000, n % 0x2000_0000;
      var shifted := n * 8 % U32;
      assert shifted == lo * 8;
      SplitCarry(count0, hi, lo * 8);
      count0 := (count0 + shifted) % U32;
      if count0 < shifted {
        count1 := (count1 + 1) % U32;
      }
      count1 := (count1 + n / 0x2000_0000) % U32;
    }

    lemma BufferIs(m: seq<byte>, from: nat)
      requires buffer.Length == 64 && from + 64 <= |m|
      requires forall k :: 0 <= k < 64 ==> buffer[k] == m[from + k]
      ensures buffer[..] == m[from..from + 64]
    {
    }

    /** Complete the buffered block and absorb it. */
    method CompleteBlock(input: seq<byte>, index: nat, ghost q: nat)
      requires buffer.Length == 64 && |msg| == 64 * q + index && index < 64 && 64 - index <= |input|
      requires state == Fold(transform, msg, 64 * q) && HoldsTail(msg, index)
      modifies this`state, buffer
      ensures state == Fold(transform, msg + input, 64 * q + 64)
    {
      var partlen := 64 - index;
      FoldPrefix(transform, msg, input, 64 * q);
      MemCopy(index, input[..partlen]);
      BufferIs(msg + input, 64 * q);
      FoldStep(transform, msg + input, 64 * q);
      state := transform(state, buffer[..]);
    }

    /** Run through the whole blocks of the input from offset `i0` on. */
    method AbsorbBlocks(input: seq<byte>, i0: nat) returns (i: nat, ghost k: nat)
      requires i0 <= |input| && TestsRight(i0, |input|) && state == Fold(transform, msg + input, |msg| + i0)
      modifies this`state
      ensures i == i0 + 64 * k && i <= |input| < i + 64
      ensures state == Fold(transform, msg + input, |msg| + i)
    {
      i, k := i0, 0;
      while LoopTest(i, |input|)
        invariant i == i0 + 64 * k && i <= |input| && TestsRight(i, |input|)
        invariant state == Fold(transform, msg + input, |msg| + i)
        decreases |input| - i
      {
        BlockStep(transform, msg, input, i);
        state := transform(state, input[i..i + 64]);
        i, k := i + 64, k + 1;
      }
    }

    /** Complete the buffered block and run through the whole blocks of the input;
        `k` counts the latter. */
    method Absorb(input: seq<byte>, index: nat, ghost q: nat) returns (i: nat, ghost k: nat)
      requires buffer.Length == 64 && |msg| == 64 * q + index && index < 64
      requires 64 - index <= |input| && TestsRight(64 - index, |input|)
      requires state == Fold(transform, msg, 64 * q) && HoldsTail(msg, index)
      modifies this`state, buffer
      ensures i == 64 - index + 64 * k && i <= |input| < i + 64
      ensures state == Fold(transform, msg + input, |msg| + i)
    {
      CompleteBlock(input, index, q);
      i, k := AbsorbBlocks(input, 64 - index);
    }

    /** Everything an update does besides counting; the message grows to
        `64 * q1 + index1` bytes. */
    method Feed(input: seq<byte>, index0: nat, ghost q: nat) returns (ghost q1: nat, ghost index1: nat)
      requires buffer.Length == 64 && |msg| == 64 * q + index0 && index0 < 64
      requires 64 - index0 <= |input| ==> TestsRight(64 - index0, |input|)
      requires state == Fold(transform, msg, 64 * q) && HoldsTail(msg, index0)
      modifies this`state, buffer
      ensures |msg + input| == 64 * q1 + index1 && index1 < 64
      ensures state == Fold(transform, msg + input, 64 * q1) && HoldsTail(msg + input, index1)
    {
      var index := index0;
      var partlen := 64 - index;
      var i := 0;
      if |input| >= partlen {
        ghost var k;
        i, k := Absorb(input, index, q);
        index := 0;
        q1 := q + 1 + k;
        assert |msg| + i == 64 * q1;
      } else {
        FoldPrefix(transform, msg, input, 64 * q);
        q1 := q;
      }
      MemCopy(index, input[i..]);
      index1 := index + |input| - i;
    }

    /** Number of bytes in the buffer. */
    method BufferIndex() returns (index: nat)
      requires Counted(|msg|)
      ensures index == |msg| % 64
    {
      IndexFromCount(|msg|);
      index := count0 / 8 % 64;
    }

    /** Count `n` more bytes. */
    method CountBytes(n: u32)
      requires Counted(|msg|)
      modifies this`count0, this`count1
      ensures Counted(|msg| + n)
    {
      CountGrows(|msg|, n, count0, count1);
      AddLength(n);
    }

    /** Absorb the input, leaving the tail of the message in the buffer. */
    method FeedAll(input: seq<byte>, index: nat)
      requires buffer.Length == 64 && index == |msg| % 64 && ChunkFits(index, |input|)
      requires Absorbed(msg)
      modifies this`state, buffer
      ensures Absorbed(msg + input)
    {
      ghost var q, q1, index1 := |msg| / 64, 0, 0;
      if 64 - index <= |input| {
        FitsTestsRight(index, |input|, 64 - index, 0);
      }
      q1, index1 := Feed(input, index, q);
      SplitBy64(|msg + input|, q1, index1);
    }

    method Update(input: seq<byte>)
      requires Valid() && ChunkFits(|msg| % 64, |input|)
      modifies this`count0, this`count1, this`state, this`msg, buffer
      ensures Valid() && msg == old(msg) + input
    {
      var index := BufferIndex();
      CountBytes(|input|);
      FeedAll(input, index);
      assert |msg + input| == |msg| + |input|;
      msg := msg + input;
    }

    /** Append the padding and the length of the message before it. */
    method Pad()
      requires Valid()
      modifies this`count0, this`count1, this`state, this`msg, buffer
      ensures Valid() && msg == Padded(old(msg))
    {
      var index := BufferIndex();
      var padlen := if index < 56 then 56 - index else 120 - index;
      var bits := Encode([count0, count1]);
      TwoWords(count0, count1);
      var padding: seq<byte> := [0x80] + Zeros(63);
      assert padding[..padlen] == [0x80] + Zeros(padlen - 1);
      ModestChunksFit(|msg| % 64, padlen);
      Update(padding[..padlen]);
      ModestChunksFit(|msg| % 64, 8);
      Update(bits);
    }

    method Finish() returns (digest: seq<byte>)
      requires Valid()
      modifies this`count0, this`count1, this`state, this`msg, buffer
      ensures digest == OneShot(transform, old(msg))
    {
      PaddingFillsBlocks(|msg|);
      Pad();
      digest := Encode([state.a, state.b, state.c, state.d]);
    }
  }

  /** The chunks from the `k`-th on, put together. */
  function Concat(chunks: seq<seq<byte>>, k: nat): seq<byte>
    requires k <= |chunks|
    decreases |chunks| - k
  {
    if k == |chunks| then [] else chunks[k] + Concat(chunks, k + 1)
  }

  /** Each of them fits where it comes, after `before` bytes. */
  predicate AllFit(chunks: seq<seq<byte>>, k: nat, before: nat)
    requires k <= |chunks|
    decreases |chunks| - k
  {
    k == |chunks| || (ChunkFits(before % 64, |chunks[k]|) && AllFit(chunks, k + 1, before + |chunks[k]|))
  }

  lemma {:induction false} ModestChunksAllFit(chunks: seq<seq<byte>>, k: nat, before: nat)
    requires k <= |chunks| && forall k :: 0 <= k < |chunks| ==> |chunks[k]| + 64 < U32
    ensures AllFit(chunks, k, before)
    decreases |chunks| - k
  {
    if k < |chunks| {
      ModestChunksFit(before % 64, |chunks[k]|);
      ModestChunksAllFit(chunks, k + 1, before + |chunks[k]|);
    }
  }

  lemma Append3(m: seq<byte>, c: seq<byte>, rest: seq<byte>)
    ensures m + (c + rest) == (m + c) + rest
  {
  }

  /** However a message is cut, streaming it gives its one-shot hash. */
  method HashChunks(f: Transform, chunks: seq<seq<byte>>) returns (digest: seq<byte>)
    requires AllFit(chunks, 0, 0)
    ensures digest == OneShot(f, Concat(chunks, 0))
  {
    var ctx := new Context.Init(f);
    var k := 0;
    assert ctx.msg + Concat(chunks, 0) == Concat(chunks, 0);
    while k < |chunks|
      invariant k <= |chunks| && ctx.Valid() && fresh(ctx) && fresh(ctx.buffer) && ctx.transform == f
      invariant ctx.msg + Concat(chunks, k) == Concat(chunks, 0) && AllFit(chunks, k, |ctx.msg|)
    {
      Append3(ctx.msg, chunks[k], Concat(chunks, k + 1));
      ctx.Update(chunks[k]);
      k := k + 1;
    }
    assert ctx.msg + [] == ctx.msg;
    digest := ctx.Finish();
  }
}
