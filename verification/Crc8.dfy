/** The checksum of an SII image: the ETG CRC-8 with polynomial x^8 + x^2 + x + 1 and initial value
    0xFF, and the reference it is measured against, long division of polynomials over two elements. */
module Crc8 {
  import opened Bytes

  // ------------------------------------------------------------------------------- eight bits

  /** An eight-bit register, high bit first. */
  datatype Octet = Octet(b7: bool, b6: bool, b5: bool, b4: bool, b3: bool, b2: bool, b1: bool, b0: bool)

  const ZERO: Octet := Octet(false, false, false, false, false, false, false, false)
  const ONE: Octet := Octet(false, false, false, false, false, false, false, true)
  const POLYNOMIAL: Octet := Octet(false, false, false, false, false, true, true, true)
  const INITIAL: Octet := Octet(true, true, true, true, true, true, true, true)

  function Xor(a: Octet, b: Octet): Octet {
    Octet(a.b7 != b.b7, a.b6 != b.b6, a.b5 != b.b5, a.b4 != b.b4,
          a.b3 != b.b3, a.b2 != b.b2, a.b1 != b.b1, a.b0 != b.b0)
  }

  /** The shift to the left of a uint8_t. */
  function ShiftLeft(r: Octet): Octet { Octet(r.b6, r.b5, r.b4, r.b3, r.b2, r.b1, r.b0, false) }

  /** `n` without its bit of weight `w`. */
  function Without(n: int, w: int): int { if n >= w then n - w else n }

  /** The four bits of a number below sixteen, high bit first. */
  function Nibble(n: int): (bool, bool, bool, bool) {
    var m, k := Without(n, 8), Without(Without(n, 8), 4);
    (n >= 8, m >= 4, k >= 2, Without(k, 2) >= 1)
  }

  function OctetOf(b: byte): Octet {
    var high, low := Nibble(b / 16), Nibble(b % 16);
    Octet(high.0, high.1, high.2, high.3, low.0, low.1, low.2, low.3)
  }

  function OctetsOf(m: seq<byte>): (s: seq<Octet>)
    ensures |s| == |m|
  {
    seq(|m|, i requires 0 <= i < |m| => OctetOf(m[i]))
  }

  function Weight(bit: bool, weight: nat): nat { if bit then weight else 0 }

  function Number(n: (bool, bool, bool, bool)): nat {
    Weight(n.0, 8) + Weight(n.1, 4) + Weight(n.2, 2) + Weight(n.3, 1)
  }

  lemma NibbleIsBinary(n: int)
    requires 0 <= n < 16
    ensures Number(Nibble(n)) == n
  {
  }

  /** The bits are those of the binary number. */
  lemma OctetOfIsBinary(b: byte)
    ensures var r := OctetOf(b);
      Weight(r.b7, 128) + Weight(r.b6, 64) + Weight(r.b5, 32) + Weight(r.b4, 16)
      + Weight(r.b3, 8) + Weight(r.b2, 4) + Weight(r.b1, 2) + Weight(r.b0, 1) == b
  {
    NibbleIsBinary(b / 16);
    NibbleIsBinary(b % 16);
    InTwoNibbles(Nibble(b / 16), Nibble(b % 16));
  }

  lemma InTwoNibbles(h: (bool, bool, bool, bool), l: (bool, bool, bool, bool))
    ensures Weight(h.0, 128) + Weight(h.1, 64) + Weight(h.2, 32) + Weight(h.3, 16)
            + Weight(l.0, 8) + Weight(l.1, 4) + Weight(l.2, 2) + Weight(l.3, 1) == 16 * Number(h) + Number(l)
  {
  }

  lemma NibbleIsInjective(m: int, n: int)
    requires 0 <= m < 16 && 0 <= n < 16 && Nibble(m) == Nibble(n)
    ensures m == n
  {
  }

  /** Comparing bytes is comparing their bits. */
  lemma OctetOfIsInjective(a: byte, b: byte)
    requires OctetOf(a) == OctetOf(b)
    ensures a == b
  {
    assert Nibble(a / 16) == Nibble(b / 16) && Nibble(a % 16) == Nibble(b % 16);
    NibbleIsInjective(a / 16, b / 16);
    NibbleIsInjective(a % 16, b % 16);
  }

  // ---------------------------------------------------------------------------- as it is computed

  /** One turn of the inner loop: a one that falls out at the top comes back as the polynomial. */
  function Shift(r: Octet): Octet {
    Octet(r.b6, r.b5, r.b4, r.b3, r.b2, r.b1 != r.b7, r.b0 != r.b7, r.b7)
  }

  /** The inner loop: as many turns as a byte has bits. */
  function ByteShift(r: Octet): Octet { Shifts(r, |BitsOf(r)|) }

  function Shifts(r: Octet, n: nat): Octet
    decreases n
  {
    if n == 0 then r else Shifts(Shift(r), n - 1)
  }

  /** The register after the bytes of `m`. */
  function Crc(r: Octet, m: seq<Octet>): Octet
    decreases |m|
  {
    if m == [] then r else Crc(ByteShift(Xor(r, m[0])), m[1..])
  }

  /** The checksum loop of validateSiiImage. */
  method Checksum(m: seq<Octet>) returns (crc: Octet)
    ensures crc == Crc(INITIAL, m)
  {
    crc := INITIAL;
    for i := 0 to |m|
      invariant Crc(crc, m[i..]) == Crc(INITIAL, m)
    {
      crc := ShiftByte(Xor(crc, m[i]));
      assert m[i..][1..] == m[i + 1..];
    }
  }

  /** Its inner loop. */
  method ShiftByte(mixed: Octet) returns (crc: Octet)
    ensures crc == ByteShift(mixed)
  {
    crc := mixed;
    for bit := 0 to 8
      invariant Shifts(crc, 8 - bit) == ByteShift(mixed)
    {
      OneShift(crc);
      crc := if crc.b7 then Xor(ShiftLeft(crc), POLYNOMIAL) else ShiftLeft(crc);
    }
  }

  lemma OneShift(r: Octet)
    ensures Shift(r) == if r.b7 then Xor(ShiftLeft(r), POLYNOMIAL) else ShiftLeft(r)
  {
  }

  // ------------------------------------------------------------------------------ the reference

  function BitsOf(r: Octet): (s: seq<bool>)
    ensures |s| == 8
  {
    [r.b7, r.b6, r.b5, r.b4, r.b3, r.b2, r.b1, r.b0]
  }

  function Bits(m: seq<Octet>): (s: seq<bool>)
    ensures |s| == 8 * |m|
  {
    if m == [] then [] else BitsOf(m[0]) + Bits(m[1..])
  }

  /** Long division by x^8 + x^2 + x + 1: while nine bits are left, a leading one is cleared by
      subtracting the divisor, and dropped. What is left is the remainder. */
  function Remainder(s: seq<bool>): (r: seq<bool>)
    ensures |s| >= 8 ==> |r| == 8
    decreases |s|
  {
    if |s| <= 8 then
      s
    else if s[0] then
      Remainder(s[1..6] + [!s[6], !s[7], !s[8]] + s[9..])
    else
      Remainder(s[1..])
  }

  /** The first eight bits inverted, which is what starting from 0xFF amounts to. */
  function Inverted(m: seq<Octet>): seq<Octet>
    requires m != []
  {
    [Negated(m[0])] + m[1..]
  }

  function Negated(r: Octet): Octet { Octet(!r.b7, !r.b6, !r.b5, !r.b4, !r.b3, !r.b2, !r.b1, !r.b0) }

  /** The bytes of `m` and the checksum behind them divide without a remainder. */
  predicate IsCodeword(m: seq<Octet>, checksum: Octet)
    requires m != []
  {
    Remainder(Bits(Inverted(m) + [checksum])) == [false, false, false, false, false, false, false, false]
  }

  // ----------------------------------------------------------------- division by a shift register

  /** Brings down one more bit. */
  function Divide(r: Octet, bit: bool): Octet { var s := Shift(r); s.(b0 := s.b0 != bit) }

  function Run(r: Octet, s: seq<bool>): Octet
    decreases |s|
  {
    if s == [] then r else Run(Divide(r, s[0]), s[1..])
  }

  lemma {:induction false} RunAppend(r: Octet, a: seq<bool>, b: seq<bool>)
    ensures Run(r, a + b) == Run(Run(r, a), b)
    decreases |a|
  {
    if a == [] {
      assert a + b == b;
    } else {
      assert (a + b)[1..] == a[1..] + b;
      RunAppend(Divide(r, a[0]), a[1..], b);
    }
  }

  lemma RemainderStep(r: Octet, bit: bool, rest: seq<bool>)
    ensures Remainder(BitsOf(r) + [bit] + rest) == Remainder(BitsOf(Divide(r, bit)) + rest)
  {
    DivideBits(r, bit);
    if r.b7 {
      Cleared(BitsOf(r) + [bit], rest);
    } else {
      Dropped(BitsOf(r) + [bit], rest);
    }
  }

  lemma DivideBits(r: Octet, bit: bool)
    ensures var nine := BitsOf(r) + [bit];
            BitsOf(Divide(r, bit)) == if r.b7 then Subtracted(nine) else nine[1..]
  {
  }

  /** Nine bits after the divisor is subtracted, without the one it clears. */
  function Subtracted(nine: seq<bool>): seq<bool>
    requires |nine| == 9
  {
    [nine[1], nine[2], nine[3], nine[4], nine[5], !nine[6], !nine[7], !nine[8]]
  }

  lemma Dropped(nine: seq<bool>, rest: seq<bool>)
    requires |nine| == 9 && !nine[0]
    ensures Remainder(nine + rest) == Remainder(nine[1..] + rest)
  {
    assert (nine + rest)[1..] == nine[1..] + rest;
  }

  lemma Cleared(nine: seq<bool>, rest: seq<bool>)
    requires |nine| == 9 && nine[0]
    ensures Remainder(nine + rest) == Remainder(Subtracted(nine) + rest)
  {
    var a := nine + rest;
    assert a[1..6] + [!a[6], !a[7], !a[8]] + a[9..] == Subtracted(nine) + rest;
  }

  /** The register holds the remainder of what has been brought down. */
  lemma {:induction false} RunIsRemainder(r: Octet, s: seq<bool>)
    ensures Remainder(BitsOf(r) + s) == BitsOf(Run(r, s))
    decreases |s|
  {
    if s == [] {
      assert BitsOf(r) + s == BitsOf(r);
    } else {
      assert BitsOf(r) + s == BitsOf(r) + [s[0]] + s[1..];
      RemainderStep(r, s[0], s[1..]);
      RunIsRemainder(Divide(r, s[0]), s[1..]);
    }
  }

  // ------------------------------------------------------------- the byte loop is long division

  lemma ShiftXor(a: Octet, b: Octet)
    ensures Shift(Xor(a, b)) == Xor(Shift(a), Shift(b))
  {
  }

  lemma {:induction false} ShiftsXor(a: Octet, b: Octet, n: nat)
    ensures Shifts(Xor(a, b), n) == Xor(Shifts(a, n), Shifts(b, n))
    decreases n
  {
    if n == 0 {
    } else {
      ShiftXor(a, b);
      ShiftsXor(Shift(a), Shift(b), n - 1);
    }
  }

  lemma XorAssociative(a: Octet, b: Octet, c: Octet)
    ensures Xor(Xor(a, b), c) == Xor(a, Xor(b, c))
  {
  }

  lemma DivideParts(r: Octet, bit: bool)
    ensures Divide(r, bit) == Xor(Shift(r), Divide(ZERO, bit))
  {
  }

  /** What was in the register and what is brought down do not mix. */
  lemma {:induction false} RunParts(r: Octet, s: seq<bool>)
    ensures Run(r, s) == Xor(Shifts(r, |s|), Run(ZERO, s))
    decreases |s|
  {
    if s != [] {
      var bit, n := Divide(ZERO, s[0]), |s| - 1;
      RunParts(Divide(r, s[0]), s[1..]);
      RunParts(bit, s[1..]);
      DivideParts(r, s[0]);
      ShiftsXor(Shift(r), bit, n);
      XorAssociative(Shifts(Shift(r), n), Shifts(bit, n), Run(ZERO, s[1..]));
    } else {
      assert Xor(r, ZERO) == r;
    }
  }

  lemma RunStep(r: Octet, s: seq<bool>, k: nat)
    requires k < |s|
    ensures Run(r, s[k..]) == Run(Divide(r, s[k]), s[k + 1..])
  {
    assert s[k..][1..] == s[k + 1..];
  }

  lemma LoadHalf(s: seq<bool>)
    requires |s| == 8
    ensures Run(ZERO, s) == Run(Octet(false, false, false, false, s[0], s[1], s[2], s[3]), s[4..])
  {
    assert s[0..] == s;
    RunStep(ZERO, s, 0);
    var r1 := Octet(false, false, false, false, false, false, false, s[0]);
    RunStep(r1, s, 1);
    var r2 := Octet(false, false, false, false, false, false, s[0], s[1]);
    RunStep(r2, s, 2);
    var r3 := Octet(false, false, false, false, false, s[0], s[1], s[2]);
    RunStep(r3, s, 3);
  }

  lemma LoadRest(s: seq<bool>)
    requires |s| == 8
    ensures Run(Octet(false, false, s[0], s[1], s[2], s[3], s[4], s[5]), s[6..])
         == Octet(s[0], s[1], s[2], s[3], s[4], s[5], s[6], s[7])
  {
    var r6 := Octet(false, false, s[0], s[1], s[2], s[3], s[4], s[5]);
    RunStep(r6, s, 6);
    var r7 := Octet(false, s[0], s[1], s[2], s[3], s[4], s[5], s[6]);
    RunStep(r7, s, 7);
    assert s[8..] == [];
  }

  lemma Load(s: seq<bool>)
    requires |s| == 8
    ensures Run(ZERO, s) == Octet(s[0], s[1], s[2], s[3], s[4], s[5], s[6], s[7])
  {
    LoadHalf(s);
    var r4 := Octet(false, false, false, false, s[0], s[1], s[2], s[3]);
    RunStep(r4, s, 4);
    var r5 := Octet(false, false, false, s[0], s[1], s[2], s[3], s[4]);
    RunStep(r5, s, 5);
    LoadRest(s);
  }

  /** Bringing down a whole byte. */
  lemma RunByte(r: Octet, b: Octet)
    ensures Run(r, BitsOf(b)) == Xor(ByteShift(r), b)
  {
    LoadByte(BitsOf(b), b);
    RunPartsOf(r, BitsOf(b), b, |BitsOf(r)|);
  }

  lemma LoadByte(s: seq<bool>, b: Octet)
    requires s == BitsOf(b)
    ensures Run(ZERO, s) == b
  {
    Load(s);
  }

  lemma RunPartsOf(r: Octet, s: seq<bool>, b: Octet, n: nat)
    requires |s| == n && Run(ZERO, s) == b
    ensures Run(r, s) == Xor(Shifts(r, n), b)
  {
    RunParts(r, s);
  }

  lemma {:induction false} RunBytes(r: Octet, m: seq<Octet>, checksum: Octet)
    ensures Run(r, Bits(m + [checksum])) == Xor(Crc(ByteShift(r), m), checksum)
    decreases |m|
  {
    if m == [] {
      assert m + [checksum] == [checksum];
      assert Bits([checksum][1..]) == [];
      assert Bits([checksum]) == BitsOf(checksum);
      RunByte(r, checksum);
    } else {
      var next := Xor(ByteShift(r), m[0]);
      assert (m + [checksum])[1..] == m[1..] + [checksum];
      RunAppend(r, BitsOf(m[0]), Bits(m[1..] + [checksum]));
      RunByte(r, m[0]);
      RunBytes(next, m[1..], checksum);
    }
  }

  /** A checksum matches exactly when the image's bits and the checksum together are a multiple of
      the polynomial. */
  lemma ChecksumIsDivision(m: seq<Octet>, checksum: Octet)
    requires m != []
    ensures Crc(INITIAL, m) == checksum <==> IsCodeword(m, checksum)
  {
    var first, rest := Xor(INITIAL, m[0]), m[1..] + [checksum];
    StartInverts(m[0]);
    assert Inverted(m) + [checksum] == [first] + rest;
    assert ([first] + rest)[1..] == rest;
    RunIsRemainder(first, Bits(rest));
    RunBytes(first, m[1..], checksum);
    XorIsZero(Crc(INITIAL, m), checksum);
    BitsAreInjective(Run(first, Bits(rest)), ZERO);
  }

  /** Starting from 0xFF negates the first byte. */
  lemma StartInverts(first: Octet)
    ensures Xor(INITIAL, first) == Negated(first)
  {
  }

  lemma XorIsZero(a: Octet, b: Octet)
    ensures Xor(a, b) == ZERO <==> a == b
  {
  }

  lemma BitsAreInjective(a: Octet, b: Octet)
    ensures BitsOf(a) == BitsOf(b) <==> a == b
  {
    var s, t := BitsOf(a), BitsOf(b);
    if s == t {
      assert s[0] == t[0] && s[1] == t[1] && s[2] == t[2] && s[3] == t[3];
      assert s[4] == t[4] && s[5] == t[5] && s[6] == t[6] && s[7] == t[7];
    }
  }
}
