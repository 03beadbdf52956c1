/** What the checksum of an SII image catches. */
module Crc8Laws {
  import opened Crc8

  // ------------------------------------------------------------------------------- differences

  /** Where two bit strings of one length differ. */
  function Difference(a: seq<bool>, b: seq<bool>): (d: seq<bool>)
    requires |a| == |b|
    ensures |d| == |a|
    ensures forall i | 0 <= i < |a| :: d[i] == (a[i] != b[i])
  {
    if a == [] then [] else [a[0] != b[0]] + Difference(a[1..], b[1..])
  }

  /** In how many bits. */
  function Ones(s: seq<bool>): nat {
    if s == [] then 0 else (if s[0] then 1 else 0) + Ones(s[1..])
  }

  lemma {:induction false} DifferenceAppend(a: seq<bool>, b: seq<bool>, c: seq<bool>, d: seq<bool>)
    requires |a| == |b| && |c| == |d|
    ensures Difference(a + c, b + d) == Difference(a, b) + Difference(c, d)
  {
  }

  // ------------------------------------------------------------------------------- linearity

  lemma DivideXor(r: Octet, q: Octet, x: bool, y: bool)
    ensures Divide(Xor(r, q), x != y) == Xor(Divide(r, x), Divide(q, y))
  {
  }

  /** The remainder of a difference is the difference of the remainders. */
  lemma {:induction false} RunXor(r: Octet, q: Octet, a: seq<bool>, b: seq<bool>)
    requires |a| == |b|
    ensures Run(Xor(r, q), Difference(a, b)) == Xor(Run(r, a), Run(q, b))
    decreases |a|
  {
    if a == [] {
    } else {
      assert Difference(a, b)[1..] == Difference(a[1..], b[1..]);
      DivideXor(r, q, a[0], b[0]);
      RunXor(Divide(r, a[0]), Divide(q, b[0]), a[1..], b[1..]);
    }
  }

  lemma PassMeansZero(m: seq<Octet>, c: Octet)
    requires m != []
    ensures Crc(INITIAL, m) == c <==> Run(Xor(INITIAL, m[0]), Bits(m[1..] + [c])) == ZERO
  {
    RunBytes(Xor(INITIAL, m[0]), m[1..], c);
    XorIsZero(Crc(INITIAL, m), c);
  }

  lemma InvertedCancels(a: Octet, b: Octet)
    ensures Xor(Xor(INITIAL, a), Xor(INITIAL, b)) == Xor(a, b)
  {
  }

  lemma BitsFirst(m: seq<Octet>, c: Octet)
    requires m != []
    ensures Bits(m + [c]) == BitsOf(m[0]) + Bits(m[1..] + [c])
  {
    assert (m + [c])[1..] == m[1..] + [c];
    BitsStep(m + [c], m[0], m[1..] + [c]);
  }

  lemma BitsStep(block: seq<Octet>, first: Octet, rest: seq<Octet>)
    requires block != [] && block[0] == first && block[1..] == rest
    ensures Bits(block) == BitsOf(first) + Bits(rest)
  {
  }

  /** The bits in which two blocks of a header and its checksum differ. */
  function Changed(m: seq<Octet>, c: Octet, n: seq<Octet>, d: Octet): seq<bool>
    requires |m| == |n|
  {
    Difference(Bits(m + [c]), Bits(n + [d]))
  }

  /** A block that differs from a passing one passes exactly when the difference is a multiple of the
      polynomial. */
  lemma PassesTooExactly(m: seq<Octet>, c: Octet, n: seq<Octet>, d: Octet)
    requires m != [] && |m| == |n|
    requires Crc(INITIAL, m) == c
    ensures Crc(INITIAL, n) == d <==> Run(ZERO, Changed(m, c, n, d)) == ZERO
  {
    PassMeansZero(m, c);
    PassMeansZero(n, d);
    BitsFirst(m, c);
    BitsFirst(n, d);
    LoadByte(BitsOf(m[0]), m[0]);
    LoadByte(BitsOf(n[0]), n[0]);
    OneZero(BitsOf(m[0]), BitsOf(n[0]), Bits(m[1..] + [c]), Bits(n[1..] + [d]), m[0], n[0]);
  }

  lemma OneZero(u: seq<bool>, v: seq<bool>, x: seq<bool>, y: seq<bool>, a: Octet, b: Octet)
    requires |u| == |v| && |x| == |y|
    requires Run(ZERO, u) == a && Run(Xor(INITIAL, a), x) == ZERO
    requires Run(ZERO, v) == b
    ensures Run(ZERO, Difference(u + x, v + y)) == Run(Xor(INITIAL, b), y)
  {
    DifferenceAppend(u, v, x, y);
    RunAppend(ZERO, Difference(u, v), Difference(x, y));
    assert Xor(ZERO, ZERO) == ZERO;
    RunXor(ZERO, ZERO, u, v);
    InvertedCancels(a, b);
    RunXor(Xor(INITIAL, a), Xor(INITIAL, b), x, y);
    assert Xor(ZERO, Run(Xor(INITIAL, b), y)) == Run(Xor(INITIAL, b), y);
  }

  // ------------------------------------------------------------ any odd number of changed bits

  predicate Odd(n: nat) { n % 2 == 1 }

  predicate Parity(r: Octet) {
    (((r.b7 != r.b6) != (r.b5 != r.b4)) != ((r.b3 != r.b2) != (r.b1 != r.b0)))
  }

  lemma DivideParity(r: Octet, x: bool)
    ensures Parity(Divide(r, x)) == (Parity(r) != x)
  {
  }

  lemma {:induction false} RunParity(r: Octet, s: seq<bool>)
    ensures Parity(Run(r, s)) == (Parity(r) != Odd(Ones(s)))
    decreases |s|
  {
    if s == [] {
    } else {
      DivideParity(r, s[0]);
      RunParity(Divide(r, s[0]), s[1..]);
    }
  }

  // -------------------------------------------------------------------------- bursts of changes

  predicate AllZero(s: seq<bool>) { forall i | 0 <= i < |s| :: !s[i] }

  lemma ShiftNonzero(r: Octet)
    requires r != ZERO
    ensures Shift(r) != ZERO
  {
  }

  lemma {:induction false} ShiftsNonzero(r: Octet, n: nat)
    requires r != ZERO
    ensures Shifts(r, n) != ZERO
    decreases n
  {
    if n == 0 {
    } else {
      ShiftNonzero(r);
      ShiftsNonzero(Shift(r), n - 1);
    }
  }

  lemma {:induction false} RunZeros(r: Octet, s: seq<bool>)
    requires AllZero(s)
    ensures Run(r, s) == Shifts(r, |s|)
    decreases |s|
  {
    if s == [] {
    } else {
      assert Divide(r, s[0]) == Shift(r);
      RunZeros(Shift(r), s[1..]);
    }
  }

  lemma {:induction false} ShiftsZero(n: nat)
    ensures Shifts(ZERO, n) == ZERO
  {
    if n == 0 {
    } else {
      assert Shift(ZERO) == ZERO;
      ShiftsZero(n - 1);
    }
  }

  /** Zeros before a difference do not matter, and zeros behind it cannot hide it. */
  lemma RunBetween(a: seq<bool>, w: seq<bool>, b: seq<bool>)
    requires AllZero(a) && AllZero(b)
    requires Run(ZERO, w) != ZERO
    ensures Run(ZERO, a + w + b) != ZERO
  {
    RunAppend(ZERO, a + w, b);
    RunAppend(ZERO, a, w);
    RunZeros(ZERO, a);
    ShiftsZero(|a|);
    RunZeros(Run(ZERO, w), b);
    ShiftsNonzero(Run(ZERO, w), |b|);
  }

  lemma WindowNonzero(w: seq<bool>)
    requires |w| == 8 && !AllZero(w)
    ensures Run(ZERO, w) != ZERO
  {
    Load(w);
  }

  /** Every one lies within the eight bits from `p` on. */
  predicate Within(s: seq<bool>, p: nat) { forall i | 0 <= i < |s| && s[i] :: p <= i < p + 8 }

  lemma BurstIsSeen(s: seq<bool>, p: nat)
    requires p + 8 <= |s|
    requires Within(s, p)
    requires !AllZero(s)
    ensures Run(ZERO, s) != ZERO
  {
    var a, w, b := s[..p], s[p..p + 8], s[p + 8..];
    assert s == a + w + b;
    assert AllZero(a) && AllZero(b);
    assert !AllZero(w) by {
      var i :| 0 <= i < |s| && s[i];
      assert w[i - p];
    }
    WindowNonzero(w);
    RunBetween(a, w, b);
  }

  // ------------------------------------------------------------------------ two changed bits

  /** The register is one for the first time after `n` turns. */
  predicate FirstOneAfter(r: Octet, n: nat)
    decreases n
  {
    if n == 0 then r == ONE else r != ONE && FirstOneAfter(Shift(r), n - 1)
  }

  lemma {:induction false} NotOneBefore(r: Octet, n: nat, k: nat)
    requires FirstOneAfter(r, n) && k <= n
    ensures Shifts(r, k) == ONE <==> k == n
    decreases k
  {
    if k == 0 {
    } else {
      NotOneBefore(Shift(r), n - 1, k - 1);
    }
  }

  /** Eight turns lead from `r` to `q` and none of them starts from one. */
  predicate EightTurns(r: Octet, q: Octet) {
    var r1 := Shift(r);
    var r2 := Shift(r1);
    var r3 := Shift(r2);
    var r4 := Shift(r3);
    var r5 := Shift(r4);
    var r6 := Shift(r5);
    var r7 := Shift(r6);
    && Shift(r7) == q
    && r != ONE && r1 != ONE && r2 != ONE && r3 != ONE && r4 != ONE && r5 != ONE && r6 != ONE && r7 != ONE
  }

  lemma OneMore(r: Octet, n: nat)
    requires r != ONE && FirstOneAfter(Shift(r), n)
    ensures FirstOneAfter(r, n + 1)
  {
  }

  lemma EightMore(r: Octet, q: Octet, n: nat)
    requires EightTurns(r, q) && FirstOneAfter(q, n)
    ensures FirstOneAfter(r, n + 8)
  {
    var r1 := Shift(r);
    var r2 := Shift(r1);
    var r3 := Shift(r2);
    var r4 := Shift(r3);
    var r5 := Shift(r4);
    var r6 := Shift(r5);
    var r7 := Shift(r6);
    OneMore(r7, n);
    OneMore(r6, n + 1);
    OneMore(r5, n + 2);
    OneMore(r4, n + 3);
    OneMore(r3, n + 4);
    OneMore(r2, n + 5);
    OneMore(r1, n + 6);
    OneMore(r, n + 7);
  }

  /** The 121st to the 127th power of x. */
  lemma LastPowers()
    ensures FirstOneAfter(OctetOf(0x6D), 6)
  {
    assert Shift(OctetOf(0x83)) == ONE;
    OneMore(OctetOf(0x83), 0);
    OneMore(OctetOf(0xC2), 1);
    OneMore(OctetOf(0x61), 2);
    OneMore(OctetOf(0xB3), 3);
    OneMore(OctetOf(0xDA), 4);
    OneMore(OctetOf(0x6D), 5);
  }

  lemma PowersFrom97(n: nat)
    requires FirstOneAfter(OctetOf(0x6D), n)
    ensures FirstOneAfter(OctetOf(0xBA), n + 24)
  {
    EightMore(OctetOf(0xCD), OctetOf(0x6D), n);
    EightMore(OctetOf(0x2F), OctetOf(0xCD), n + 8);
    EightMore(OctetOf(0xBA), OctetOf(0x2F), n + 16);
  }

  lemma PowersFrom73(n: nat)
    requires FirstOneAfter(OctetOf(0xBA), n)
    ensures FirstOneAfter(OctetOf(0xF2), n + 24)
  {
    EightMore(OctetOf(0x3E), OctetOf(0xBA), n);
    EightMore(OctetOf(0xD0), OctetOf(0x3E), n + 8);
    EightMore(OctetOf(0xF2), OctetOf(0xD0), n + 16);
  }

  lemma PowersFrom49(n: nat)
    requires FirstOneAfter(OctetOf(0xF2), n)
    ensures FirstOneAfter(OctetOf(0x52), n + 24)
  {
    EightMore(OctetOf(0x26), OctetOf(0xF2), n);
    EightMore(OctetOf(0xB9), OctetOf(0x26), n + 8);
    EightMore(OctetOf(0x52), OctetOf(0xB9), n + 16);
  }

  lemma PowersFrom25(n: nat)
    requires FirstOneAfter(OctetOf(0x52), n)
    ensures FirstOneAfter(OctetOf(0xD6), n + 24)
  {
    EightMore(OctetOf(0xC4), OctetOf(0x52), n);
    EightMore(OctetOf(0x2C), OctetOf(0xC4), n + 8);
    EightMore(OctetOf(0xD6), OctetOf(0x2C), n + 16);
  }

  lemma PowersFrom1(n: nat)
    requires FirstOneAfter(OctetOf(0xD6), n)
    ensures FirstOneAfter(OctetOf(0x02), n + 24)
  {
    EightMore(OctetOf(0x2A), OctetOf(0xD6), n);
    EightMore(OctetOf(0x0E), OctetOf(0x2A), n + 8);
    EightMore(OctetOf(0x02), OctetOf(0x0E), n + 16);
  }

  /** The order of x is 127: the powers up to the 126th differ from one, and the 127th is one. */
  lemma Order() returns (n: nat)
    ensures n == 126 && FirstOneAfter(Shift(ONE), n)
  {
    n := 6;
    LastPowers();
    PowersFrom97(n);
    PowersFrom73(n + 24);
    PowersFrom49(n + 48);
    PowersFrom25(n + 72);
    PowersFrom1(n + 96);
    n := n + 120;
    assert Shift(ONE) == OctetOf(0x02);
  }

  lemma {:induction false} NoOnes(s: seq<bool>)
    requires Ones(s) == 0
    ensures AllZero(s)
  {
    if s == [] {
    } else {
      NoOnes(s[1..]);
    }
  }

  lemma {:induction false} FirstOne(s: seq<bool>) returns (i: nat)
    requires Ones(s) > 0
    ensures i < |s| && s[i] && AllZero(s[..i]) && Ones(s[i + 1..]) == Ones(s) - 1
  {
    if s[0] {
      i := 0;
    } else {
      var k := FirstOne(s[1..]);
      i := k + 1;
      assert s[1..][k + 1..] == s[i + 1..];
      assert s[..i] == [s[0]] + s[1..][..k];
    }
  }

  lemma {:induction false} ShiftsThenShift(r: Octet, n: nat)
    ensures Shift(Shifts(r, n)) == Shifts(Shift(r), n)
    decreases n
  {
    if n == 0 {
    } else {
      ShiftsThenShift(Shift(r), n - 1);
    }
  }

  lemma DivideOne(r: Octet)
    requires Shift(r) != ONE
    ensures Divide(r, true) != ZERO
  {
  }

  /** Two ones at most 126 places apart. */
  lemma PairIsSeen(gap: seq<bool>)
    requires AllZero(gap) && |gap| < 126
    ensures Run(ZERO, [true] + gap + [true]) != ZERO
  {
    var first, last := [true], [true];
    assert Run(ZERO, first) == ONE by {
      assert Divide(ZERO, true) == ONE;
      assert first[1..] == [];
    }
    RunAppend(ZERO, first + gap, last);
    RunAppend(ZERO, first, gap);
    RunZeros(ONE, gap);
    var n := Order();
    NotOneBefore(Shift(ONE), n, |gap|);
    ShiftsThenShift(ONE, |gap|);
    DivideOne(Shifts(ONE, |gap|));
    assert last[1..] == [];
  }

  lemma AroundTwoOnes(s: seq<bool>, i: nat, j: nat)
    requires i < |s| && s[i] && j < |s[i + 1..]| && s[i + 1..][j]
    ensures var t := s[i + 1..]; s == s[..i] + ([true] + t[..j] + [true]) + t[j + 1..]
  {
    var t := s[i + 1..];
    assert t == t[..j] + [true] + t[j + 1..];
    assert s == s[..i] + ([true] + t);
  }

  lemma TwoAreSeen(s: seq<bool>)
    requires Ones(s) == 2 && |s| <= 127
    ensures Run(ZERO, s) != ZERO
  {
    var i := FirstOne(s);
    var t := s[i + 1..];
    var j := FirstOne(t);
    NoOnes(t[j + 1..]);
    AroundTwoOnes(s, i, j);
    PairIsSeen(t[..j]);
    RunBetween(s[..i], [true] + t[..j] + [true], t[j + 1..]);
  }

  lemma UpToThreeAreSeen(s: seq<bool>)
    requires 1 <= Ones(s) <= 3 && |s| <= 127
    ensures Run(ZERO, s) != ZERO
  {
    if Ones(s) == 2 {
      TwoAreSeen(s);
    } else {
      OddAreSeen(s);
    }
  }

  lemma OddAreSeen(s: seq<bool>)
    requires Odd(Ones(s))
    ensures Run(ZERO, s) != ZERO
  {
    RunParity(ZERO, s);
  }

  // ---------------------------------------------------------------------------------- the code

  /** An odd number of changed bits never goes unnoticed, at any length. */
  lemma DetectsOddChanges(m: seq<Octet>, c: Octet, n: seq<Octet>, d: Octet)
    requires m != [] && |m| == |n|
    requires Odd(Ones(Changed(m, c, n, d)))
    requires Crc(INITIAL, m) == c
    ensures Crc(INITIAL, n) != d
  {
    PassesTooExactly(m, c, n, d);
    OddAreSeen(Changed(m, c, n, d));
  }

  /** Changes that all lie within eight consecutive bits never go unnoticed, at any length. */
  lemma DetectsBursts(m: seq<Octet>, c: Octet, n: seq<Octet>, d: Octet, p: nat)
    requires m != [] && |m| == |n|
    requires p + 8 <= 8 * (|m| + 1)
    requires Within(Changed(m, c, n, d), p)
    requires (m, c) != (n, d)
    requires Crc(INITIAL, m) == c
    ensures Crc(INITIAL, n) != d
  {
    SomethingChanged(m, c, n, d);
    BurstIsSeen(Changed(m, c, n, d), p);
    PassesTooExactly(m, c, n, d);
  }

  lemma SamePairs(m: seq<Octet>, c: Octet, n: seq<Octet>, d: Octet)
    requires |m| == |n|
    ensures m + [c] == n + [d] ==> m == n && c == d
  {
    var x, y := m + [c], n + [d];
    assert m == x[..|m|] && c == x[|m|] && n == y[..|n|] && d == y[|n|];
  }

  lemma SomethingChanged(m: seq<Octet>, c: Octet, n: seq<Octet>, d: Octet)
    requires |m| == |n| && (m, c) != (n, d)
    ensures !AllZero(Changed(m, c, n, d))
  {
    SamePairs(m, c, n, d);
    if AllZero(Changed(m, c, n, d)) {
      NothingChanged(m + [c], n + [d]);
    }
  }

  lemma {:induction false} NothingChanged(m: seq<Octet>, n: seq<Octet>)
    requires |m| == |n| && AllZero(Difference(Bits(m), Bits(n)))
    ensures m == n
  {
    if m == [] {
    } else {
      var u, v := BitsOf(m[0]), BitsOf(n[0]);
      DifferenceAppend(u, v, Bits(m[1..]), Bits(n[1..]));
      var d, e := Difference(u, v), Difference(Bits(m[1..]), Bits(n[1..]));
      ZeroParts(d, e);
      assert u == v;
      BitsAreInjective(m[0], n[0]);
      NothingChanged(m[1..], n[1..]);
    }
  }

  lemma ZeroParts(a: seq<bool>, b: seq<bool>)
    requires AllZero(a + b)
    ensures AllZero(a) && AllZero(b)
  {
    forall i | 0 <= i < |a| ensures !a[i] {
      assert (a + b)[i] == a[i];
    }
    forall i | 0 <= i < |b| ensures !b[i] {
      assert (a + b)[|a| + i] == b[i];
    }
  }

  /** One, two or three changed bits never go unnoticed in a block of at most fifteen bytes, which
      is what the checksum of an SII image guards. */
  lemma DetectsThreeChanges(m: seq<Octet>, c: Octet, n: seq<Octet>, d: Octet)
    requires m != [] && |m| == |n| <= 14
    requires 1 <= Ones(Changed(m, c, n, d)) <= 3
    requires Crc(INITIAL, m) == c
    ensures Crc(INITIAL, n) != d
  {
    PassesTooExactly(m, c, n, d);
    UpToThreeAreSeen(Changed(m, c, n, d));
  }

  // ------------------------------------------------------------------- the bound is exact

  lemma {:induction false} ShiftsAdd(r: Octet, i: nat, j: nat)
    ensures Shifts(Shifts(r, i), j) == Shifts(r, i + j)
    decreases i
  {
    if i == 0 {
    } else {
      ShiftsAdd(Shift(r), i - 1, j);
    }
  }

  lemma XorSwap(a: Octet, b: Octet, c: Octet)
    ensures Xor(Xor(a, b), c) == Xor(Xor(a, c), b)
  {
  }

  lemma ByteShiftXor(a: Octet, b: Octet)
    ensures ByteShift(Xor(a, b)) == Xor(ByteShift(a), ByteShift(b))
  {
    ShiftsXor(a, b, |BitsOf(a)|);
  }

  /** What is changed in the register before the bytes of `m` is eight shifts further after each. */
  lemma {:induction false} CrcXor(r: Octet, q: Octet, m: seq<Octet>)
    ensures Crc(Xor(r, q), m) == Xor(Crc(r, m), Shifts(q, 8 * |m|))
    decreases |m|
  {
    if m == [] {
    } else {
      XorSwap(r, q, m[0]);
      ByteShiftXor(Xor(r, m[0]), q);
      CrcXor(ByteShift(Xor(r, m[0])), ByteShift(q), m[1..]);
      ShiftsAdd(q, |BitsOf(q)|, 8 * |m[1..]|);
    }
  }

  /** The first bit of a byte. */
  const TOP: Octet := Octet(true, false, false, false, false, false, false, false)

  lemma TopIsSeventhPower(n: nat)
    ensures Shifts(TOP, n) == Shifts(ONE, n + 7)
  {
    assert Shift(Shift(Shift(Shift(Shift(Shift(Shift(ONE))))))) == TOP;
    ShiftsAdd(ONE, 7, n);
    SevenShifts(ONE);
  }

  lemma SevenShifts(r: Octet)
    ensures Shifts(r, 7) == Shift(Shift(Shift(Shift(Shift(Shift(Shift(r)))))))
  {
    ShiftsAdd(r, 4, 3);
  }

  /** One byte more and two changed bits go unnoticed: in any passing block of fifteen bytes and their
      checksum, changing the first and the last bit, which are 127 places apart, gives another one. */
  lemma SixteenBytesAreTooMany(m: seq<Octet>, c: Octet)
    requires |m| == 15 && Crc(INITIAL, m) == c
    ensures Crc(INITIAL, [Xor(m[0], TOP)] + m[1..]) == Xor(c, ONE)
  {
    var n := [Xor(m[0], TOP)] + m[1..];
    assert n[1..] == m[1..];
    XorAssociative(INITIAL, m[0], TOP);
    ByteShiftXor(Xor(INITIAL, m[0]), TOP);
    CrcXor(ByteShift(Xor(INITIAL, m[0])), ByteShift(TOP), m[1..]);
    ShiftsAdd(TOP, |BitsOf(TOP)|, 8 * |m[1..]|);
    TopIsSeventhPower(120);
    var k := Order();
    NotOneBefore(Shift(ONE), k, k);
  }
}
