/** Why the validator refuses an image, and what the parser still reads of a chain that breaks off. */
module SiiRefusals {
  import opened Bytes
  import opened Crc8
  import opened Sii
  import opened SiiImages
  import opened SiiLaws

  // ------------------------------------------------------------------------------- the checksum

  lemma ShiftOfZero(r: Octet)
    ensures Shift(r) == ZERO <==> r == ZERO
  {
  }

  lemma {:induction false} ShiftsOfZero(r: Octet, n: nat)
    ensures Shifts(r, n) == ZERO <==> r == ZERO
    decreases n
  {
    if n == 0 {
    } else {
      ShiftOfZero(r);
      ShiftsOfZero(Shift(r), n - 1);
    }
  }

  /** Zeros never bring a register back to zero. */
  lemma {:induction false} ZerosAreCounted(r: Octet, m: seq<Octet>)
    requires r != ZERO && forall i | 0 <= i < |m| :: m[i] == ZERO
    ensures Crc(r, m) != ZERO
    decreases |m|
  {
    if m == [] {
    } else {
      assert Xor(r, m[0]) == r;
      ShiftsOfZero(r, |BitsOf(r)|);
      ZerosAreCounted(ByteShift(r), m[1..]);
    }
  }

  /** A blank header does not pass: an image whose first fifteen bytes are zero is refused for its
      checksum. */
  lemma BlankHeaderIsRefused(b: seq<byte>)
    requires |b| % 2 == 0 && |b| >= 130 && forall i | 0 <= i < 15 :: b[i] == 0
    ensures Refused(b).Some? && Refused(b).value.ChecksumMismatch? && Refused(b).value.carried == 0
  {
    ZerosAreCounted(INITIAL, OctetsOf(b[..14]));
  }

  // ----------------------------------------------------------------------- where a chain breaks off

  /** The whole categories `ks` stand one behind the other from `at` up to `to`. */
  ghost predicate Leads(c: seq<byte>, at: nat, ks: seq<Category>, to: nat)
    decreases |ks|
  {
    if ks == [] then at == to else Stands(c, at, ks[0]) && Leads(c, at + 4 + |ks[0].payload|, ks[1..], to)
  }

  /** What is wrong at `at`, by the bytes there: the end of the image, half a category header, or a size
      that runs past the end. Places are words of the image, whose categories begin at byte 128. */
  function Break(c: seq<byte>, at: nat): Option<Rejection> {
    if at + 2 > |c| then Some(NoEndMarker)
    else if c[at] == 0xFF && c[at + 1] == 0xFF then None
    else if at + 4 > |c| then Some(NoSizeWord((128 + at) / 2))
    else
      var size := Word(c[at + 2], c[at + 3]);
      if at + 4 + 2 * size > |c| then Some(RunsPast((128 + at) / 2, size, (128 + |c|) / 2)) else None
  }

  /** The chain from `at` on breaks off at `to`, behind `ks`, for this reason. */
  ghost predicate BreaksOff(c: seq<byte>, at: nat, ks: seq<Category>, to: nat, e: Rejection) {
    Leads(c, at, ks, to) && Break(c, to) == Some(e)
  }

  lemma BrokenHere(c: seq<byte>, at: nat)
    requires Break(c, at).Some?
    ensures Chain(c, at) == Err(Break(c, at).value)
  {
    if at + 2 <= |c| {
      MarkerBytes(c[at], c[at + 1]);
    }
  }

  lemma WholeHere(c: seq<byte>, at: nat)
    requires Break(c, at).None? && RdU16(c, at) != END_MARKER
    ensures Stands(c, at, CategoryAt(c, at)) && NextOffset(c, at) == at + 4 + |CategoryAt(c, at).payload|
  {
    MarkerBytes(c[at], c[at + 1]);
    FirstStands(c, at);
  }

  lemma LeadsOn(c: seq<byte>, at: nat, k: Category, ks: seq<Category>, to: nat)
    requires Stands(c, at, k) && Leads(c, at + 4 + |k.payload|, ks, to)
    ensures Leads(c, at, [k] + ks, to)
  {
    assert ([k] + ks)[1..] == ks;
  }

  /** A walk that fails comes to such a place. */
  lemma {:induction false} FailureIsFound(c: seq<byte>, at: nat) returns (ks: seq<Category>, to: nat)
    requires Chain(c, at).Err?
    ensures BreaksOff(c, at, ks, to, Chain(c, at).error)
    decreases |c| - at
  {
    if Break(c, at).Some? {
      BrokenHere(c, at);
      ks, to := [], at;
    } else {
      WholeHere(c, at);
      var k := CategoryAt(c, at);
      StandingIsLinked(c, at, k);
      var rest;
      rest, to := FailureIsFound(c, at + 4 + |k.payload|);
      LeadsOn(c, at, k, rest, to);
      ks := [k] + rest;
    }
  }

  lemma {:induction false} BreakIsFailure(c: seq<byte>, at: nat, ks: seq<Category>, to: nat, e: Rejection)
    requires BreaksOff(c, at, ks, to, e)
    ensures Chain(c, at) == Err(e)
    decreases |ks|
  {
    if ks == [] {
      BrokenHere(c, at);
    } else {
      BreakIsFailure(c, at + 4 + |ks[0].payload|, ks[1..], to, e);
      StandingIsLinked(c, at, ks[0]);
    }
  }

  ghost predicate BreaksOffFor(c: seq<byte>, e: Rejection) {
    exists ks: seq<Category>, to: nat :: BreaksOff(c, 0, ks, to, e)
  }

  lemma BreaksOffExactly(c: seq<byte>, e: Rejection)
    ensures Chain(c, 0) == Err(e) <==> BreaksOffFor(c, e)
  {
    if Chain(c, 0) == Err(e) {
      var ks, to := FailureIsFound(c, 0);
      assert BreaksOff(c, 0, ks, to, e);
    }
    if BreaksOffFor(c, e) {
      var ks: seq<Category>, to: nat :| BreaksOff(c, 0, ks, to, e);
      BreakIsFailure(c, 0, ks, to, e);
    }
  }

  /** The header is whole words, long enough, and divides by the polynomial with its checksum. */
  predicate HeaderPasses(b: seq<byte>) {
    |b| % 2 == 0 && |b| >= 130 && IsCodeword(OctetsOf(b[..14]), OctetOf(b[14]))
  }

  /** The checksum the first fourteen bytes should carry. */
  predicate DividesWith(b: seq<byte>, checksum: Octet)
    requires |b| >= 14
  {
    IsCodeword(OctetsOf(b[..14]), checksum)
  }

  /** Which refusal an image gets, and that it gets that one alone: an odd length, fewer than 65 words, a
      checksum that does not divide, and only then the first place at which the chain breaks off. */
  lemma RefusedExactlyFor(b: seq<byte>, e: Rejection)
    ensures Refused(b) == Some(e) <==>
      if |b| % 2 == 1 then e == OddLength(|b|)
      else if |b| < 130 then e == TooFewWords(|b| / 2)
      else if !HeaderPasses(b) then e.ChecksumMismatch? && e.carried == b[14] && DividesWith(b, e.computed)
      else BreaksOffFor(b[128..], e)
  {
    if |b| % 2 == 0 && |b| >= 130 {
      ChecksumIsDivision(OctetsOf(b[..14]), OctetOf(b[14]));
      if e.ChecksumMismatch? {
        ChecksumIsDivision(OctetsOf(b[..14]), e.computed);
      }
      BreaksOffExactly(b[128..], e);
    }
  }

  // ----------------------------------------------------------------- what the parser still reads

  /** The category whose size runs past the end, with the bytes there are. */
  function CutOff(c: seq<byte>, at: nat, e: Rejection): seq<Category> {
    if e.RunsPast? && at + 4 <= |c| then [Category(Word(c[at], c[at + 1]), c[at + 4..])] else []
  }

  lemma WalkOfBreak(c: seq<byte>, at: nat, e: Rejection)
    requires Break(c, at) == Some(e)
    ensures Walk(c, at) == CutOff(c, at, e)
  {
    if e.RunsPast? {
      MarkerBytes(c[at], c[at + 1]);
      assert c[at + 4..|c|] == c[at + 4..];
      assert CategoryAt(c, at) == Category(Word(c[at], c[at + 1]), c[at + 4..]);
      assert Walk(c, NextOffset(c, at)) == [];
    }
  }

  lemma UpToNopOfCut(c: seq<byte>, at: nat, e: Rejection)
    ensures UpToNop(CutOff(c, at, e)) == CutOff(c, at, e)
  {
    var cut := CutOff(c, at, e);
    assert cut != [] ==> cut[1..] == [];
  }

  lemma CutAndRest(ks: seq<Category>, cut: seq<Category>)
    requires ks != []
    ensures [ks[0]] + (ks[1..] + cut) == ks + cut
  {
  }

  lemma {:induction false} WalkLeadsOn(c: seq<byte>, at: nat, ks: seq<Category>, to: nat, cut: seq<Category>)
    requires Leads(c, at, ks, to) && Walks(c, to, cut)
    ensures Walks(c, at, ks + cut)
    decreases |ks|
  {
    if ks == [] {
      assert [] + cut == cut;
    } else {
      WalkLeadsOn(c, at + 4 + |ks[0].payload|, ks[1..], to, cut);
      WalkOn(c, at, ks[0], ks[1..] + cut);
      CutAndRest(ks, cut);
    }
  }

  lemma WalkOfBroken(c: seq<byte>, ks: seq<Category>, to: nat, e: Rejection)
    requires BreaksOff(c, 0, ks, to, e)
    ensures Walk(c, 0) == UpToNop(ks + CutOff(c, to, e))
  {
    WalkOfBreak(c, to, e);
    UpToNopOfCut(c, to, e);
    WalkLeadsOn(c, 0, ks, to, CutOff(c, to, e));
  }

  /** Of an image whose chain breaks off the parser reads every whole category before that place, and the
      one that runs past the end with the bytes there are, all of it only up to the first Nop. */
  lemma ParserReadsBrokenChain(b: seq<byte>, ks: seq<Category>, to: nat, e: Rejection)
    requires |b| >= 128 && BreaksOff(b[128..], 0, ks, to, e)
    ensures Parsed(b) == Ok(Image(ParseHeader(b), WithAll(NOTHING, UpToNop(ks + CutOff(b[128..], to, e)))))
  {
    WalkOfBroken(b[128..], ks, to, e);
  }
}
