/**
 Proof of work (node/consensus/sha3pow/src/lib.rs). The hash function is a parameter; 256-bit words are
 numbers below 2^256, difficulties encoded little-endian and hashes big-endian, as SCALE does.
 */
module ProofOfWork {
  import opened Wrappers
  import opened Text

  function Pow256(k: nat): nat {
    if k == 0 then 1 else 256 * Pow256(k - 1)
  }

  const LIMIT: int := 0x1_0000_0000_0000_0000_0000_0000_0000_0000_0000_0000_0000_0000_0000_0000_0000_0000

  type Word = x: int | 0 <= x < LIMIT

  // ----- fixed-width encodings -----

  /** The k low bytes of x, least significant first. */
  function LittleEndian(x: nat, k: nat): (bs: seq<byte>)
    ensures |bs| == k
  {
    if k == 0 then [] else [x % 256] + LittleEndian(x / 256, k - 1)
  }

  function Number(bs: seq<byte>): nat {
    if bs == [] then 0 else bs[0] + 256 * Number(bs[1..])
  }

  function Reverse(bs: seq<byte>): (r: seq<byte>)
    ensures |r| == |bs|
  {
    if bs == [] then [] else Reverse(bs[1..]) + [bs[0]]
  }

  lemma {:induction false} NumberOfBytes(x: nat, k: nat)
    requires x < Pow256(k)
    ensures Number(LittleEndian(x, k)) == x
  {
    if k > 0 {
      assert Pow256(k) == 256 * Pow256(k - 1);
      assert x / 256 < Pow256(k - 1);
      NumberOfBytes(x / 256, k - 1);
      var bs := LittleEndian(x, k);
      assert bs[1..] == LittleEndian(x / 256, k - 1);
    }
  }

  lemma LowByte(b: byte, rest: nat)
    ensures (b + 256 * rest) % 256 == b && (b + 256 * rest) / 256 == rest
  {
  }

  lemma {:induction false} BytesOfNumber(bs: seq<byte>)
    ensures Number(bs) < Pow256(|bs|)
    ensures LittleEndian(Number(bs), |bs|) == bs
  {
    if bs != [] {
      var rest := Number(bs[1..]);
      BytesOfNumber(bs[1..]);
      LowByte(bs[0], rest);
      assert Number(bs) == bs[0] + 256 * rest;
      assert LittleEndian(Number(bs), |bs|) == [bs[0]] + LittleEndian(rest, |bs| - 1);
      assert Pow256(|bs|) == 256 * Pow256(|bs| - 1);
    }
  }

  lemma {:induction false} ReverseAppend(a: seq<byte>, b: byte)
    ensures Reverse(a + [b]) == [b] + Reverse(a)
  {
    if a == [] {
      assert a + [b] == [b];
    } else {
      assert (a + [b])[1..] == a[1..] + [b];
      ReverseAppend(a[1..], b);
    }
  }

  lemma {:induction false} ReverseTwice(bs: seq<byte>)
    ensures Reverse(Reverse(bs)) == bs
  {
    if bs != [] {
      ReverseTwice(bs[1..]);
      ReverseAppend(Reverse(bs[1..]), bs[0]);
    }
  }

  lemma LimitIsPower()
    ensures Pow256(32) == LIMIT
  {
    assert Pow256(8) == 0x1_0000_0000_0000_0000;
    assert Pow256(16) == 0x1_0000_0000_0000_0000_0000_0000_0000_0000 by { PowAdd(8, 8); }
    PowAdd(16, 16);
  }

  lemma {:induction false} PowAdd(a: nat, b: nat)
    ensures Pow256(a + b) == Pow256(a) * Pow256(b)
  {
    if a > 0 {
      PowAdd(a - 1, b);
      assert Pow256(a) * Pow256(b) == 256 * (Pow256(a - 1) * Pow256(b));
    }
  }

  /** U256: 32 bytes, little-endian. */
  function EncodeNumber(x: Word): (bs: seq<byte>)
    ensures |bs| == 32
  {
    LittleEndian(x, 32)
  }

  /** H256: 32 bytes, in the order that reads as a big-endian number. */
  function EncodeHash(x: Word): (bs: seq<byte>)
    ensures |bs| == 32
  {
    Reverse(LittleEndian(x, 32))
  }

  function DecodeNumber(bs: seq<byte>): Word
    requires |bs| == 32
  {
    LimitIsPower();
    BytesOfNumber(bs);
    Number(bs)
  }

  function DecodeHash(bs: seq<byte>): Word
    requires |bs| == 32
  {
    DecodeNumber(Reverse(bs))
  }

  lemma WordRoundTrip(x: Word)
    ensures DecodeNumber(EncodeNumber(x)) == x && DecodeHash(EncodeHash(x)) == x
  {
    LimitIsPower();
    NumberOfBytes(x, 32);
    ReverseTwice(LittleEndian(x, 32));
  }

  lemma BytesRoundTrip(bs: seq<byte>)
    requires |bs| == 32
    ensures EncodeNumber(DecodeNumber(bs)) == bs && EncodeHash(DecodeHash(bs)) == bs
  {
    BytesOfNumber(bs);
    BytesOfNumber(Reverse(bs));
    ReverseTwice(bs);
  }

  // ----- seals -----

  datatype Seal = Seal(difficulty: Word, work: Word, nonce: Word)

  function EncodeSeal(s: Seal): (bs: seq<byte>)
    ensures |bs| == 96
  {
    EncodeNumber(s.difficulty) + EncodeHash(s.work) + EncodeHash(s.nonce)
  }

  /** `Seal::decode` reads 96 bytes and does not ask whether more follow. */
  function DecodeSeal(raw: seq<byte>): Option<Seal> {
    if |raw| < 96 then None
    else Some(Seal(DecodeNumber(raw[..32]), DecodeHash(raw[32..64]), DecodeHash(raw[64..96])))
  }

  /** Decoding and encoding undo each other on the first 96 bytes. */
  lemma SealRoundTrip(raw: seq<byte>, s: Seal)
    ensures DecodeSeal(raw) == Some(s) <==> |raw| >= 96 && raw[..96] == EncodeSeal(s)
  {
    hide DecodeNumber, DecodeHash, EncodeNumber, EncodeHash;
    if |raw| >= 96 {
      var a, b, c := raw[..32], raw[32..64], raw[64..96];
      assert raw[..96] == a + b + c;
      BytesRoundTrip(a);
      BytesRoundTrip(b);
      BytesRoundTrip(c);
      WordRoundTrip(s.difficulty);
      WordRoundTrip(s.work);
      WordRoundTrip(s.nonce);
      if raw[..96] == EncodeSeal(s) {
        var e := EncodeSeal(s);
        assert e[..32] == EncodeNumber(s.difficulty);
        assert e[32..64] == EncodeHash(s.work) && e[64..96] == EncodeHash(s.nonce);
        assert e[..32] == a && e[32..64] == b && e[64..96] == c;
      }
    }
  }

  type Hash = seq<byte> -> Word

  function EncodeCompute(difficulty: Word, preHash: Word, nonce: Word): seq<byte> {
    EncodeNumber(difficulty) + EncodeHash(preHash) + EncodeHash(nonce)
  }

  /** `Compute::compute` */
  function Compute(hash: Hash, difficulty: Word, preHash: Word, nonce: Word): Seal {
    Seal(difficulty, hash(EncodeCompute(difficulty, preHash, nonce)), nonce)
  }

  lemma DivDiv(x: nat, a: nat, b: nat)
    requires a > 0 && b > 0
    ensures a * b > 0 && x / a / b == x / (a * b)
  {
    var q := x / a;
    DivDigits(x, a, b, q, x % a, q / b, q % b);
  }

  lemma DivDigits(x: nat, a: nat, b: nat, q: nat, t: nat, k: nat, r: nat)
    requires x == a * q + t && t < a && q == b * k + r && r < b
    ensures a * b > 0 && x / (a * b) == k
  {
    Expand(a, b, k, r);
    DigitsBound(a, b, r, t);
    QuotientIs(x, a * b, k, a * r + t);
  }

  lemma Expand(a: nat, b: nat, k: nat, r: nat)
    ensures a * (b * k + r) == a * b * k + a * r
  {
  }

  lemma DigitsBound(a: nat, b: nat, r: nat, t: nat)
    requires r < b && t < a
    ensures 0 <= a * r + t < a * b
  {
    MulLeft(r, b - 1, a);
    assert (b - 1) * a == a * b - a;
  }

  lemma QuotientIs(x: nat, m: nat, k: nat, r: nat)
    requires x == m * k + r && r < m
    ensures x / m == k
  {
    var q := x / m;
    assert x == m * q + x % m && m * (q + 1) == m * q + m && m * (k + 1) == m * k + m;
    LessFactor(k, q + 1, m);
    LessFactor(q, k + 1, m);
  }

  lemma LessFactor(a: nat, b: nat, m: nat)
    ensures m * a < m * b ==> a < b
  {
    if b <= a {
      MulLeft(b, a, m);
    }
  }

  lemma PowPositive(k: nat)
    ensures Pow256(k) > 0
  {
  }

  lemma {:induction false} LittleEndianAt(x: nat, k: nat, i: nat)
    requires i < k
    ensures Pow256(i) > 0 && LittleEndian(x, k)[i] == x / Pow256(i) % 256
    decreases i
  {
    PowPositive(i);
    if i > 0 {
      PowPositive(i - 1);
      LittleEndianAt(x / 256, k - 1, i - 1);
      DivDiv(x, 256, Pow256(i - 1));
    }
  }

  lemma {:induction false} ReverseAt(bs: seq<byte>, i: nat)
    requires i < |bs|
    ensures Reverse(bs)[i] == bs[|bs| - 1 - i]
  {
    if i < |bs| - 1 {
      ReverseAt(bs[1..], i);
    }
  }

  /** The 96 bytes of a seal: the difficulty least significant byte first, then the work and the nonce most
      significant byte first. */
  lemma SealBytes(s: Seal, i: nat)
    requires i < 32
    ensures Pow256(i) > 0 && Pow256(31 - i) > 0
    ensures EncodeSeal(s)[i] == s.difficulty / Pow256(i) % 256
    ensures EncodeSeal(s)[32 + i] == s.work / Pow256(31 - i) % 256
    ensures EncodeSeal(s)[64 + i] == s.nonce / Pow256(31 - i) % 256
  {
    hide LittleEndian, Reverse, Pow256;
    LittleEndianAt(s.difficulty, 32, i);
    LittleEndianAt(s.work, 32, 31 - i);
    LittleEndianAt(s.nonce, 32, 31 - i);
    ReverseAt(LittleEndian(s.work, 32), i);
    ReverseAt(LittleEndian(s.nonce, 32), i);
  }

  /** Computing keeps difficulty and nonce, and the work is the hash of difficulty, pre-hash and nonce laid out like a
      seal. */
  lemma ComputeMeaning(hash: Hash, difficulty: Word, preHash: Word, nonce: Word)
    ensures var seal := Compute(hash, difficulty, preHash, nonce);
            seal.difficulty == difficulty && seal.nonce == nonce &&
            seal.work == hash(EncodeSeal(Seal(difficulty, preHash, nonce)))
  {
    assert EncodeCompute(difficulty, preHash, nonce) == EncodeSeal(Seal(difficulty, preHash, nonce));
  }

  /** The hashed bytes determine what they were computed from, so work binds difficulty, pre-hash and nonce. */
  lemma ComputeBinds(d1: Word, p1: Word, n1: Word, d2: Word, p2: Word, n2: Word)
    requires EncodeCompute(d1, p1, n1) == EncodeCompute(d2, p2, n2)
    ensures d1 == d2 && p1 == p2 && n1 == n2
  {
    hide EncodeNumber, EncodeHash, DecodeSeal;
    var raw := EncodeCompute(d1, p1, n1);
    assert raw[..96] == raw;
    SealRoundTrip(raw, Seal(d1, p1, n1));
    SealRoundTrip(raw, Seal(d2, p2, n2));
  }

  /** Whether a 256-bit multiplication overflows. */
  predicate MulOverflows(a: Word, b: Word) {
    a * b >= LIMIT
  }

  predicate MeetsDifficulty(work: Word, difficulty: Word) {
    !MulOverflows(work, difficulty)
  }

  predicate Verify(hash: Hash, preHash: Word, raw: seq<byte>, difficulty: Word) {
    match DecodeSeal(raw)
    case None => false
    case Some(seal) =>
      MeetsDifficulty(seal.work, difficulty) && Compute(hash, difficulty, preHash, seal.nonce) == seal
  }

  /** Verified seals are genuine, and nothing else about them matters: raw bytes are accepted exactly when they
      start with the encoding of the computed seal of some nonce whose work meets the difficulty. */
  lemma VerifyExactly(hash: Hash, preHash: Word, raw: seq<byte>, difficulty: Word)
    ensures Verify(hash, preHash, raw, difficulty) <==>
            exists nonce: Word ::
              var seal := Compute(hash, difficulty, preHash, nonce);
              |raw| >= 96 && raw[..96] == EncodeSeal(seal) && MeetsDifficulty(seal.work, difficulty)
  {
    hide DecodeSeal, EncodeSeal, EncodeCompute, MeetsDifficulty;
    if Verify(hash, preHash, raw, difficulty) {
      var seal := DecodeSeal(raw).value;
      SealRoundTrip(raw, seal);
      assert Compute(hash, difficulty, preHash, seal.nonce) == seal;
    }
    if nonce: Word :| var seal := Compute(hash, difficulty, preHash, nonce);
                      |raw| >= 96 && raw[..96] == EncodeSeal(seal) && MeetsDifficulty(seal.work, difficulty) {
      SealRoundTrip(raw, Compute(hash, difficulty, preHash, nonce));
    }
  }

  /** Bytes after an accepted seal change nothing: neither do they make one acceptable. */
  lemma TrailingBytes(hash: Hash, preHash: Word, raw: seq<byte>, extra: seq<byte>, difficulty: Word)
    requires |raw| >= 96
    ensures Verify(hash, preHash, raw + extra, difficulty) <==> Verify(hash, preHash, raw, difficulty)
  {
    hide EncodeSeal, DecodeSeal, EncodeCompute, MeetsDifficulty, Verify;
    VerifyExactly(hash, preHash, raw, difficulty);
    VerifyExactly(hash, preHash, raw + extra, difficulty);
    assert (raw + extra)[..96] == raw[..96];
  }

  /** The same bytes are never accepted under two difficulties. */
  lemma OneDifficulty(hash: Hash, pre1: Word, pre2: Word, raw: seq<byte>, d1: Word, d2: Word)
    requires Verify(hash, pre1, raw, d1) && Verify(hash, pre2, raw, d2)
    ensures d1 == d2
  {
    hide DecodeSeal, EncodeCompute, MeetsDifficulty;
    VerifyExactly(hash, pre1, raw, d1);
  }

  /** A nonce that solves the puzzle. */
  predicate Solves(hash: Hash, preHash: Word, difficulty: Word, nonce: Word) {
    MeetsDifficulty(Compute(hash, difficulty, preHash, nonce).work, difficulty)
  }

  /** Tries `round` nonces drawn from the generator: the seal of the first that solves the puzzle is returned encoded,
      nothing if none does, and what is returned verifies. */
  method Mine(hash: Hash, draws: seq<Word>, preHash: Word, difficulty: Word, round: nat)
    returns (result: Option<seq<byte>>)
    requires round <= |draws|
    ensures result.None? <==> forall i | 0 <= i < round :: !Solves(hash, preHash, difficulty, draws[i])
    ensures result.Some? ==> exists k | 0 <= k < round ::
              result.value == EncodeSeal(Compute(hash, difficulty, preHash, draws[k])) &&
              Solves(hash, preHash, difficulty, draws[k]) &&
              forall i | 0 <= i < k :: !Solves(hash, preHash, difficulty, draws[i])
    ensures result.Some? ==> Verify(hash, preHash, result.value, difficulty)
  {
    hide EncodeSeal, DecodeSeal, EncodeCompute, MeetsDifficulty, Verify;
    var n := 0;
    while n < round
      invariant 0 <= n <= round
      invariant forall i | 0 <= i < n :: !Solves(hash, preHash, difficulty, draws[i])
    {
      var nonce := draws[n];
      var seal := Compute(hash, difficulty, preHash, nonce);
      if MeetsDifficulty(seal.work, difficulty) {
        var raw := EncodeSeal(seal);
        assert raw[..96] == raw;
        VerifyExactly(hash, preHash, raw, difficulty);
        assert Solves(hash, preHash, difficulty, draws[n]);
        return Some(raw);
      }
      n := n + 1;
    }
    return None;
  }

  // ----- the threshold -----

  lemma DivBound(work: nat, difficulty: nat, limit: nat)
    requires difficulty >= 1 && limit >= 1
    ensures work * difficulty < limit <==> work <= (limit - 1) / difficulty
  {
    var q := (limit - 1) / difficulty;
    assert limit - 1 == difficulty * q + (limit - 1) % difficulty;
    if work <= q {
      MulLeft(work, q, difficulty);
    } else {
      MulLeft(q + 1, work, difficulty);
      assert (q + 1) * difficulty == difficulty * q + difficulty;
    }
  }

  /** No overflow means that the work is at most floor((2^256 - 1) / d); everything meets difficulty zero. */
  lemma MeetsBound(work: Word, difficulty: Word)
    ensures MeetsDifficulty(work, difficulty) <==> difficulty == 0 || work <= (LIMIT - 1) / difficulty
  {
    if difficulty == 0 {
      assert work * difficulty == 0;
    } else {
      DivBound(work, difficulty, LIMIT);
    }
  }

  predicate Below(x: int, n: int) {
    0 <= x < n
  }

  function Range(n: int): set<int> {
    set x: int | 0 <= x < n && Below(x, n)
  }

  lemma {:induction false} RangeSize(n: nat)
    ensures |Range(n)| == n
  {
    if n > 0 {
      RangeSize(n - 1);
      assert Range(n) == Range(n - 1) + {n - 1};
    }
  }

  /** The hashes that meet a difficulty. */
  function Solutions(difficulty: Word): set<int> {
    set h: int | 0 <= h < LIMIT && MeetsDifficulty(h, difficulty)
  }

  /** Exactly floor((2^256 - 1) / d) + 1 of the 2^256 hashes meet a difficulty d >= 1. */
  lemma Threshold(difficulty: Word)
    requires difficulty >= 1
    ensures |Solutions(difficulty)| == (LIMIT - 1) / difficulty + 1
  {
    hide MeetsDifficulty;
    var q := (LIMIT - 1) / difficulty;
    Quotient(difficulty);
    forall h: int | 0 <= h < LIMIT
      ensures MeetsDifficulty(h, difficulty) <==> h <= q
    {
      MeetsBound(h, difficulty);
    }
    assert Solutions(difficulty) == Range(q + 1);
    RangeSize(q + 1);
  }

  lemma Quotient(difficulty: Word)
    requires difficulty >= 1
    ensures 0 <= (LIMIT - 1) / difficulty < LIMIT
  {
    var q := (LIMIT - 1) / difficulty;
    MulLeft(1, difficulty, q);
    assert difficulty * q <= LIMIT - 1;
  }
}
