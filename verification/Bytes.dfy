/** Bytes and the little-endian words the wire formats are made of. */
module Bytes {
  type byte = x: int | 0 <= x < 256
  type u16 = x: int | 0 <= x < 0x1_0000
  type u32 = x: int | 0 <= x < 0x1_0000_0000

  datatype Option<+T> = None | Some(value: T)
  datatype Result<+T, +E> = Ok(value: T) | Err(error: E)

  function Min(a: int, b: int): int { if a < b then a else b }

  /** The 16-bit word of two bytes, low byte first. */
  function Word(lo: byte, hi: byte): u16 { (lo as int) + 256 * (hi as int) }

  function Low(w: u16): byte { w % 256 }

  function High(w: u16): byte { w / 256 }

  /** The 16-bit word at `at`, low byte first. */
  function ReadU16(b: seq<byte>, at: nat): u16
    requires at + 2 <= |b|
  {
    Word(b[at], b[at + 1])
  }

  lemma WordOfParts(w: u16)
    ensures Word(Low(w), High(w)) == w
  {
  }

  lemma PartsOfWord(lo: byte, hi: byte)
    ensures Low(Word(lo, hi)) == lo && High(Word(lo, hi)) == hi
  {
  }

  // ------------------------------------------------------------------- words of any width

  /** The number whose bytes are `b`, low byte first. */
  function Value(b: seq<byte>): nat {
    if b == [] then 0 else b[0] + 256 * Value(b[1..])
  }

  /** The low `n` bytes of `v`, low byte first. */
  function LowBytes(v: nat, n: nat): (b: seq<byte>)
    ensures |b| == n
  {
    if n == 0 then [] else [v % 256] + LowBytes(v / 256, n - 1)
  }

  function Power256(n: nat): nat { if n == 0 then 1 else 256 * Power256(n - 1) }

  lemma {:induction false} ValueOfLowBytes(v: nat, n: nat)
    requires v < Power256(n)
    ensures Value(LowBytes(v, n)) == v
  {
    if n == 0 {
    } else {
      ValueOfLowBytes(v / 256, n - 1);
      assert LowBytes(v, n)[1..] == LowBytes(v / 256, n - 1);
    }
  }

  lemma {:induction false} LowBytesOfValue(b: seq<byte>)
    ensures LowBytes(Value(b), |b|) == b
  {
    if b == [] {
    } else {
      LowBytesOfValue(b[1..]);
      FirstAndOthers(b[0], Value(b[1..]));
      assert b == [b[0]] + b[1..];
    }
  }

  lemma FirstAndOthers(first: byte, others: nat)
    ensures (first + 256 * others) % 256 == first && (first + 256 * others) / 256 == others
  {
  }

  lemma {:induction false} ValueIsBounded(b: seq<byte>)
    ensures Value(b) < Power256(|b|)
  {
    if b == [] {
    } else {
      ValueIsBounded(b[1..]);
    }
  }

  lemma Powers()
    ensures Power256(2) == 0x1_0000 && Power256(4) == 0x1_0000_0000
  {
    assert Power256(1) == 256;
    assert Power256(3) == 0x100_0000;
  }

  /** Four bytes shifted into one word. */
  function Shifted(b0: int, b1: int, b2: int, b3: int): int {
    b0 + 0x100 * b1 + 0x1_0000 * b2 + 0x100_0000 * b3
  }

  lemma ValueOfFour(b: seq<byte>)
    requires |b| == 4
    ensures Value(b) == Shifted(b[0], b[1], b[2], b[3])
  {
    assert Value(b[4..]) == 0;
    assert b[3..][1..] == b[4..] && b[2..][1..] == b[3..] && b[1..][1..] == b[2..];
    assert Value(b[3..]) == b[3] + 256 * Value(b[4..]);
    assert Value(b[2..]) == b[2] + 256 * Value(b[3..]);
    assert Value(b[1..]) == b[1] + 256 * Value(b[2..]);
  }

  // ------------------------------------------------------------------------------- sequences

  lemma Associative<T>(a: seq<T>, b: seq<T>, c: seq<T>)
    ensures a + b + c == a + (b + c)
  {
  }

  lemma PrefixParts(b: seq<byte>, at: nat, part: seq<byte>, tail: seq<byte>)
    requires at <= |b| && part + tail <= b[at..]
    ensures at + |part| <= |b| && b[at..at + |part|] == part && tail <= b[at + |part|..]
  {
    var whole, rest := part + tail, b[at..];
    assert whole == rest[..|whole|];
    assert part == whole[..|part|] && tail == whole[|part|..];
    assert b[at + |part|..] == rest[|part|..];
    assert tail == rest[|part|..][..|tail|];
  }
}
