/** Machine-level vocabulary shared by the models: bytes, 32-bit words, their byte
    order, and absent values. */
module Machine {

  datatype Option<+T> = None | Some(value: T)

  /** The modulus of unsigned 32-bit arithmetic. */
  const U32: nat := 0x1_0000_0000

  type byte = x: int | 0 <= x < 256
  type u32 = x: int | 0 <= x < 0x1_0000_0000

  /** A word, low-order byte first. */
  function WordBytes(x: u32): (s: seq<byte>)
    ensures |s| == 4
  {
    [x % 256, x / 256 % 256, x / 256 / 256 % 256, x / 256 / 256 / 256 % 256]
  }

  /** The word with the given bytes, low-order first. */
  function WordOf(b0: int, b1: int, b2: int, b3: int): (w: u32)
    requires 0 <= b0 < 256 && 0 <= b1 < 256 && 0 <= b2 < 256 && 0 <= b3 < 256
    ensures WordBytes(w) == [b0, b1, b2, b3]
  {
    var w := b0 + 256 * (b1 + 256 * (b2 + 256 * b3));
    assert w / 256 == b1 + 256 * (b2 + 256 * b3);
    assert w / 256 / 256 == b2 + 256 * b3;
    w
  }

  lemma WordBytesInjective(x: u32, y: u32)
    requires WordBytes(x) == WordBytes(y)
    ensures x == y
  {
    var s, t := WordBytes(x), WordBytes(y);
    assert s[0] == t[0] && s[1] == t[1] && s[2] == t[2] && s[3] == t[3];
    assert x / 256 / 256 / 256 < 256 && y / 256 / 256 / 256 < 256;
    assert x / 256 / 256 == y / 256 / 256;
    assert x / 256 == y / 256;
  }

  /** The word stored at offset `i`. */
  function WordAt(b: seq<byte>, i: nat): (w: u32)
    requires i + 4 <= |b|
    ensures WordBytes(w) == b[i..i + 4]
  {
    WordOf(b[i], b[i + 1], b[i + 2], b[i + 3])
  }

  /** The number that bytes stand for, the first byte counting least. */
  function Value(b: seq<byte>): nat { if b == [] then 0 else b[0] + 256 * Value(b[1..]) }

  lemma ValueOfWord(x: u32)
    ensures Value(WordBytes(x)) == x
  {
    var b := WordBytes(x);
    ValueShift2(b, []);
    ValueShift2(b[2..], []);
    assert b[2..][2..] == [] && b[2..][0] == b[2] && b[2..][1] == b[3];
    DigitsOfWord(x);
  }

  lemma DigitsOfWord(x: u32)
    ensures x % 256 + 256 * (x / 256 % 256) + 65536 * (x / 256 / 256 % 256 + 256 * (x / 256 / 256 / 256 % 256)) == x
  {
    var q1, q2, q3 := x / 256, x / 256 / 256, x / 256 / 256 / 256;
    assert x == 256 * q1 + x % 256 && q1 == 256 * q2 + q1 % 256 && q2 == 256 * q3 + q2 % 256 && q3 < 256;
  }

  /** Two words in a row stand for a 64-bit number with the first as its low half. */
  lemma ValueOfTwoWords(x: u32, y: u32)
    ensures Value(WordBytes(x) + WordBytes(y)) == x + U32 * y
  {
    ValueOfWord(x);
    ValueOfWord(y);
    ValueShift4(WordBytes(x), WordBytes(y));
  }

  lemma ValueShift4(a: seq<byte>, b: seq<byte>)
    requires |a| == 4
    ensures Value(a + b) == Value(a) + U32 * Value(b)
  {
    ValueShift2(a, b);
    ValueShift2(a[2..], b);
    assert a[2..][2..] == [] && [] + b == b;
  }

  lemma ValueShift2(a: seq<byte>, b: seq<byte>)
    requires |a| >= 2
    ensures Value(a + b) == a[0] + 256 * a[1] + 65536 * Value(a[2..] + b)
    ensures Value(a) == a[0] + 256 * a[1] + 65536 * Value(a[2..])
  {
    ValueShift(a, b);
    ValueShift(a[1..], b);
    assert a[1..][1..] == a[2..];
  }

  lemma ValueShift(a: seq<byte>, b: seq<byte>)
    requires a != []
    ensures Value(a + b) == a[0] + 256 * Value(a[1..] + b)
  {
    assert (a + b)[1..] == a[1..] + b;
  }
}
