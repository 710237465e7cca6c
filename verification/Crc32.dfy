/**
 The IEEE CRC-32 of section 8 of RFC 1952, as the bitwise wire reference: reflected polynomial
 0xEDB88320, initial value and final value complemented. Words are naturals below 2^32 and
 exclusive-or is defined bit by bit.
 */
module Crc32 {
  import opened MachineInts
  import opened ByteCodec

  const POLYNOMIAL: u32 := 0xEDB8_8320

  function Xor(a: nat, b: nat): nat
    decreases a + b
  {
    if a == 0 then b
    else if b == 0 then a
    else (a + b) % 2 + 2 * Xor(a / 2, b / 2)
  }

  /** One bit of the register: shift right, and fold the polynomial in when the low bit falls out. */
  function BitStep(c: nat): nat {
    ShiftFold(c, POLYNOMIAL)
  }

  function ShiftFold(c: nat, polynomial: nat): nat {
    if c % 2 == 1 then Xor(c / 2, polynomial) else c / 2
  }

  function BitSteps(c: nat, n: nat): nat
    decreases n, c
  {
    if n == 0 then c else BitSteps(BitStep(c), n - 1)
  }

  function ByteStep(c: nat, byte: u8): nat {
    BitSteps(Xor(c, byte), 8)
  }

  /** The register after a run of bytes. */
  function Run(c: nat, bytes: Bytes): nat
    decreases |bytes|
  {
    if bytes == [] then c else Run(ByteStep(c, bytes[0]), bytes[1..])
  }

  function Complement(c: u32): u32 {
    U32_MAX - c
  }

  // ----- exclusive-or

  lemma LowBit(bit: nat, rest: nat)
    requires bit < 2
    ensures (bit + 2 * rest) % 2 == bit && (bit + 2 * rest) / 2 == rest
  {
  }

  lemma XorBits(a: nat, b: nat)
    ensures Xor(a, b) % 2 == (a + b) % 2
    ensures Xor(a, b) / 2 == Xor(a / 2, b / 2)
  {
    if a != 0 && b != 0 {
      var bit, rest := (a + b) % 2, Xor(a / 2, b / 2);
      assert Xor(a, b) == bit + 2 * rest;
      hide Xor;
      LowBit(bit, rest);
    }
  }

  lemma {:induction false} XorCommutes(a: nat, b: nat)
    ensures Xor(a, b) == Xor(b, a)
    decreases a + b
  {
    if a != 0 && b != 0 {
      XorCommutes(a / 2, b / 2);
    }
  }

  lemma {:induction false} XorSelf(a: nat)
    ensures Xor(a, a) == 0
  {
    if a != 0 {
      XorSelf(a / 2);
    }
  }

  lemma XorZero(a: nat)
    ensures Xor(a, 0) == a == Xor(0, a)
  {
  }

  lemma {:induction false} XorAssociates(a: nat, b: nat, c: nat)
    ensures Xor(Xor(a, b), c) == Xor(a, Xor(b, c))
    decreases a + b + c
  {
    hide Xor;
    if a == 0 || b == 0 || c == 0 {
      XorZero(a);
      XorZero(b);
      XorZero(c);
      XorZero(Xor(a, b));
      XorZero(Xor(b, c));
    } else {
      var ab, bc := Xor(a, b), Xor(b, c);
      XorBits(a, b);
      XorBits(b, c);
      XorBits(ab, c);
      XorBits(a, bc);
      XorAssociates(a / 2, b / 2, c / 2);
      ParityOfSum(ab, a + b, c);
      ParityOfSum(bc, b + c, a);
      SameBits(Xor(ab, c), Xor(a, bc));
    }
  }

  lemma SameBits(x: nat, y: nat)
    requires x % 2 == y % 2 && x / 2 == y / 2
    ensures x == y
  {
  }

  lemma ParityOfSum(x: int, y: int, c: int)
    requires x % 2 == y % 2
    ensures (x + c) % 2 == (y + c) % 2
  {
  }

  /** Exclusive-or with a fixed word is its own inverse. */
  lemma XorCancels(a: nat, b: nat)
    ensures Xor(Xor(b, a), a) == b
  {
    XorAssociates(b, a, a);
    XorSelf(a);
  }

  lemma XorInjective(a: nat, b: nat, c: nat)
    requires Xor(c, a) == Xor(c, b)
    ensures a == b
  {
    XorCommutes(c, a);
    XorCommutes(c, b);
    XorCancels(c, a);
    XorCancels(c, b);
  }

  function Pow2(n: nat): nat {
    if n == 0 then 1 else 2 * Pow2(n - 1)
  }

  lemma {:induction false} XorBelow(a: nat, b: nat, n: nat)
    requires a < Pow2(n) && b < Pow2(n)
    ensures Xor(a, b) < Pow2(n)
    decreases n
  {
    if a != 0 && b != 0 {
      XorBelow(a / 2, b / 2, n - 1);
    }
  }

  /** Below 2^n every bit is free; from 2^n up only the second word has a bit there. */
  lemma {:induction false} XorHigh(a: nat, b: nat, n: nat)
    requires a < Pow2(n) && Pow2(n) <= b < Pow2(n + 1)
    ensures Pow2(n) <= Xor(a, b)
    decreases n
  {
    if a != 0 {
      XorHigh(a / 2, b / 2, n - 1);
    }
  }

  lemma Pow2Values()
    ensures Pow2(31) == 0x8000_0000 && Pow2(32) == 0x1_0000_0000
  {
    assert Pow2(8) == 256 by { assert Pow2(4) == 16; }
    assert Pow2(16) == 65536 by { assert Pow2(12) == 4096; }
    assert Pow2(24) == 16777216 by { assert Pow2(20) == 1048576; }
    assert Pow2(28) == 268435456;
  }

  /** Words without a common bit are simply added. */
  lemma {:induction false} XorDisjoint(low: nat, high: nat, n: nat)
    requires low < Pow2(n)
    ensures Xor(low, Pow2(n) * high) == low + Pow2(n) * high
    decreases n
  {
    if low != 0 && high != 0 {
      DoublePow2(n, high);
      XorDisjoint(low / 2, high, n - 1);
      XorStep(low, Pow2(n) * high, Pow2(n - 1) * high);
    }
  }

  lemma XorStep(low: nat, word: nat, half: nat)
    requires word == 2 * half
    ensures Xor(low, word) == low % 2 + 2 * Xor(low / 2, half)
  {
    LowBit(low % 2, low / 2 + half);
    assert word / 2 == half;
  }

  lemma DoublePow2(n: nat, v: nat)
    requires n > 0
    ensures Pow2(n) * v == 2 * (Pow2(n - 1) * v)
    ensures v > 0 ==> Pow2(n - 1) * v > 0
  {
    Pow2Positive(n - 1);
  }

  lemma {:induction false} Pow2Positive(n: nat)
    ensures Pow2(n) > 0
  {
    if n > 0 {
      Pow2Positive(n - 1);
    }
  }

  // ----- the register is linear and loses nothing

  lemma XorWith32(a: u32, b: u32)
    ensures Xor(a, b) <= U32_MAX
  {
    Pow2Values();
    XorBelow(a, b, 32);
  }

  lemma BitStepBelow(c: u32)
    ensures BitStep(c) <= U32_MAX
  {
    XorWith32(c / 2, POLYNOMIAL);
  }

  lemma BitStepInjective(a: u32, b: u32)
    requires BitStep(a) == BitStep(b)
    ensures a == b
  {
    Pow2Values();
    XorHigh(a / 2, POLYNOMIAL, 31);
    XorHigh(b / 2, POLYNOMIAL, 31);
    assert a % 2 == b % 2;
    if a % 2 == 1 {
      XorCancels(POLYNOMIAL, a / 2);
      XorCancels(POLYNOMIAL, b / 2);
    }
  }

  lemma FoldBoth(x: nat, y: nat, p: nat)
    ensures Xor(Xor(x, p), Xor(y, p)) == Xor(x, y)
  {
    XorAssociates(x, p, Xor(y, p));
    XorCommutes(p, Xor(y, p));
    XorCancels(p, y);
  }

  lemma FoldOne(x: nat, y: nat, p: nat)
    ensures Xor(Xor(x, p), y) == Xor(Xor(x, y), p) == Xor(x, Xor(y, p))
  {
    XorAssociates(x, p, y);
    XorCommutes(p, y);
    XorAssociates(x, y, p);
  }

  lemma ShiftFoldLinear(a: nat, b: nat, p: nat)
    ensures ShiftFold(Xor(a, b), p) == Xor(ShiftFold(a, p), ShiftFold(b, p))
  {
    hide Xor;
    var x, y := a / 2, b / 2;
    XorBits(a, b);
    if a % 2 == 1 && b % 2 == 1 {
      FoldBoth(x, y, p);
    } else if a % 2 == 1 || b % 2 == 1 {
      FoldOne(x, y, p);
    }
  }

  lemma BitStepLinear(a: nat, b: nat)
    ensures BitStep(Xor(a, b)) == Xor(BitStep(a), BitStep(b))
  {
    ShiftFoldLinear(a, b, POLYNOMIAL);
  }

  lemma {:induction false} BitStepsLinear(a: nat, b: nat, n: nat)
    ensures BitSteps(Xor(a, b), n) == Xor(BitSteps(a, n), BitSteps(b, n))
    decreases n
  {
    if n > 0 {
      BitStepLinear(a, b);
      BitStepsLinear(BitStep(a), BitStep(b), n - 1);
    }
  }

  lemma {:induction false} BitStepsBelow(c: u32, n: nat)
    ensures BitSteps(c, n) <= U32_MAX
    decreases n
  {
    if n > 0 {
      BitStepBelow(c);
      BitStepsBelow(BitStep(c), n - 1);
    }
  }

  lemma {:induction false} BitStepsInjective(a: u32, b: u32, n: nat)
    requires BitSteps(a, n) == BitSteps(b, n)
    ensures a == b
    decreases n
  {
    if n > 0 {
      BitStepBelow(a);
      BitStepBelow(b);
      BitStepsInjective(BitStep(a), BitStep(b), n - 1);
      BitStepInjective(a, b);
    }
  }

  lemma {:induction false} BitStepsSplit(c: nat, m: nat, n: nat)
    ensures BitSteps(c, m + n) == BitSteps(BitSteps(c, m), n)
    decreases m
  {
    if m > 0 {
      BitStepsSplit(BitStep(c), m - 1, n);
    }
  }

  /** Shifting a word out by as many bits as it was shifted in gives it back. */
  lemma {:induction false} BitStepsShift(v: nat, n: nat)
    ensures BitSteps(Pow2(n) * v, n) == v
    decreases n
  {
    if n > 0 {
      DoublePow2(n, v);
      BitStepsShift(v, n - 1);
    }
  }

  lemma ByteStepBelow(c: u32, byte: u8)
    ensures ByteStep(c, byte) <= U32_MAX
  {
    XorWith32(c, byte);
    BitStepsBelow(Xor(c, byte), 8);
  }

  /** A byte step is injective in the register and in the byte. */
  lemma ByteStepInjective(c: u32, d: u32, x: u8, y: u8)
    requires ByteStep(c, x) == ByteStep(d, y)
    ensures c == d <==> x == y
  {
    XorWith32(c, x);
    XorWith32(d, y);
    BitStepsInjective(Xor(c, x), Xor(d, y), 8);
    if c == d {
      XorInjective(x, y, c);
    }
    if x == y {
      XorCancels(x, c);
      XorCancels(x, d);
    }
  }

  lemma {:induction false} RunBelow(c: u32, bytes: Bytes)
    ensures Run(c, bytes) <= U32_MAX
    decreases |bytes|
  {
    if bytes != [] {
      ByteStepBelow(c, bytes[0]);
      RunBelow(ByteStep(c, bytes[0]), bytes[1..]);
    }
  }

  lemma {:induction false} RunConcat(c: nat, a: Bytes, b: Bytes)
    ensures Run(c, a + b) == Run(Run(c, a), b)
    decreases |a|
  {
    if a == [] {
      assert a + b == b;
    } else {
      assert (a + b)[1..] == a[1..] + b;
      RunConcat(ByteStep(c, a[0]), a[1..], b);
    }
  }

  /** A common suffix keeps different registers different. */
  lemma {:induction false} RunInjective(c: u32, d: u32, bytes: Bytes)
    requires Run(c, bytes) == Run(d, bytes)
    ensures c == d
    decreases |bytes|
  {
    if bytes != [] {
      ByteStepBelow(c, bytes[0]);
      ByteStepBelow(d, bytes[0]);
      RunInjective(ByteStep(c, bytes[0]), ByteStep(d, bytes[0]), bytes[1..]);
      ByteStepInjective(c, d, bytes[0], bytes[0]);
    }
  }

  lemma RunUnfolds(c: nat, bytes: Bytes)
    requires bytes != []
    ensures FromLE(bytes) == bytes[0] + 256 * FromLE(bytes[1..])
    ensures Run(c, bytes) == Run(ByteStep(c, bytes[0]), bytes[1..])
  {
    hide Xor, BitSteps, BitStep;
  }

  /** A run of bytes is one word folded into the register, followed by eight bit steps a byte. */
  lemma {:induction false} RunIsOneWord(c: nat, bytes: Bytes)
    ensures Run(c, bytes) == BitSteps(Xor(c, FromLE(bytes)), 8 * |bytes|)
    decreases |bytes|
  {
    if bytes == [] {
      XorZero(c);
    } else {
      hide *;
      var b, tail := bytes[0], bytes[1..];
      RunUnfolds(c, bytes);
      RunIsOneWord(ByteStep(c, b), tail);
      NextByteShifts(c, b, FromLE(tail));
      var word := Xor(c, FromLE(bytes));
      BitStepsSplit(word, 8, 8 * |tail|);
      assert 8 + 8 * |tail| == 8 * |bytes|;
      assert Run(c, bytes) == BitSteps(word, 8 * |bytes|);
    }
  }

  /** Folding in the low bits and then the rest is folding in the word they make up. */
  lemma NextBitsShift(c: nat, low: nat, rest: nat, n: nat)
    requires low < Pow2(n)
    ensures Xor(BitSteps(Xor(c, low), n), rest) == BitSteps(Xor(c, low + Pow2(n) * rest), n)
  {
    hide *;
    var high := Pow2(n) * rest;
    BitStepsShift(rest, n);
    BitStepsLinear(Xor(c, low), high, n);
    XorAssociates(c, low, high);
    XorDisjoint(low, rest, n);
  }

  lemma NextByteShifts(c: nat, byte: u8, rest: nat)
    ensures Xor(ByteStep(c, byte), rest) == BitSteps(Xor(c, byte + 256 * rest), 8)
  {
    assert Pow2(8) == 256 by { assert Pow2(4) == 16; }
    assert ByteStep(c, byte) == BitSteps(Xor(c, byte), 8);
    hide *;
    NextBitsShift(c, byte, rest, 8);
  }

  /** No two runs of at most four bytes leave the same register behind. */
  lemma ShortRunInjective(c: u32, a: Bytes, b: Bytes)
    requires |a| == |b| <= 4
    requires Run(c, a) == Run(c, b)
    ensures a == b
  {
    RunIsOneWord(c, a);
    RunIsOneWord(c, b);
    ShortWord(a);
    ShortWord(b);
    XorWith32(c, FromLE(a));
    XorWith32(c, FromLE(b));
    BitStepsInjective(Xor(c, FromLE(a)), Xor(c, FromLE(b)), 8 * |a|);
    XorInjective(FromLE(a), FromLE(b), c);
    FromLEInjective(a, b);
  }

  lemma ShortWord(a: Bytes)
    requires |a| <= 4
    ensures FromLE(a) <= U32_MAX
  {
    Pow256Values();
  }

  // ----- the checksum

  /** `crc32_ieee_update` */
  function Update(previous: u32, bytes: Bytes): u32 {
    RunBelow(Complement(previous), bytes);
    Complement(Run(Complement(previous), bytes))
  }

  /** `crc32_ieee` */
  function Checksum(bytes: Bytes): u32 {
    Update(0, bytes)
  }

  /** `packet_crc32`: the header without its CRC field, then the payload */
  function PacketChecksum(prefix: Bytes, payload: Bytes): u32 {
    Update(Checksum(prefix), payload)
  }

  /** Continuing a checksum over the next piece equals one pass over both. */
  lemma SplitUpdate(prefix: Bytes, payload: Bytes)
    ensures PacketChecksum(prefix, payload) == Checksum(prefix + payload)
  {
    var c := Complement(0);
    RunBelow(c, prefix);
    RunConcat(c, prefix, payload);
    assert Complement(Checksum(prefix)) == Run(c, prefix);
  }

  /** A change confined to at most four consecutive payload bytes always changes the checksum. */
  lemma BurstChangesChecksum(prefix: Bytes, before: Bytes, x: Bytes, y: Bytes, after: Bytes)
    requires |x| == |y| <= 4 && x != y
    ensures PacketChecksum(prefix, before + x + after) != PacketChecksum(prefix, before + y + after)
  {
    var start := Complement(Checksum(prefix));
    RunBelow(start, before);
    var c: u32 := Run(start, before);
    RunConcat(start, before + x, after);
    RunConcat(start, before, x);
    RunConcat(start, before + y, after);
    RunConcat(start, before, y);
    RunBelow(c, x);
    RunBelow(c, y);
    if Run(start, before + x + after) == Run(start, before + y + after) {
      RunInjective(Run(c, x), Run(c, y), after);
      ShortRunInjective(c, x, y);
    }
  }

  // ----- exclusive-or is the machine's own

  function Value(x: bv8): u8 {
    x as nat
  }

  lemma Halved(x: bv8)
    ensures Value(x >> 1) == Value(x) / 2 && Value(x) % 2 == Value(x & 1) && Value(x & 1) < 2
    ensures Value(x) == 0 <==> x == 0
  {
  }

  lemma LowBits(x: bv8, y: bv8)
    ensures (x ^ y) & 1 == (x & 1) ^ (y & 1) && (x ^ y) >> 1 == (x >> 1) ^ (y >> 1)
    ensures Value((x & 1) ^ (y & 1)) == (Value(x & 1) + Value(y & 1)) % 2
  {
    assert x & 1 == 0 || x & 1 == 1;
    assert y & 1 == 0 || y & 1 == 1;
  }

  lemma Combined(x: bv8, y: bv8)
    ensures Value(x ^ y) % 2 == (Value(x) + Value(y)) % 2
    ensures Value(x ^ y) / 2 == Value((x >> 1) ^ (y >> 1))
  {
    hide Value;
    Halved(x);
    Halved(y);
    Halved(x ^ y);
    LowBits(x, y);
  }

  lemma {:induction false} XorOfBytes(x: bv8, y: bv8)
    ensures Xor(Value(x), Value(y)) == Value(x ^ y)
    decreases Value(x)
  {
    hide Xor, Value;
    Halved(x);
    if x == 0 {
      XorZero(Value(y));
      assert x ^ y == y;
    } else {
      Halved(y);
      XorOfBytes(x >> 1, y >> 1);
      Combined(x, y);
      XorBits(Value(x), Value(y));
      SameBits(Xor(Value(x), Value(y)), Value(x ^ y));
    }
  }

  /** The number with `n` low bits `low` and the rest above them. */
  function Join(rest: nat, low: nat, n: nat): nat {
    Pow2(n) * rest + low
  }

  lemma SameWord(a: nat, b: nat, c: nat, x: nat, y: nat)
    requires a % 2 == x % 2 && b % 2 == y % 2 && c % 2 == Xor(x, y) % 2 && Xor(a / 2, b / 2) == c / 2
    ensures Xor(a, b) == c
  {
    hide Xor;
    XorBits(a, b);
    XorBits(x, y);
    ParityOfSum(a, x, b);
    ParityOfSum(b, y, x);
    SameBits(Xor(a, b), c);
  }

  lemma HalfBelow(x: nat, n: nat)
    requires n > 0 && x < Pow2(n)
    ensures x / 2 < Pow2(n - 1)
  {
  }

  lemma HalfOfEven(m: nat, x: nat)
    ensures (2 * m + x) % 2 == x % 2 && (2 * m + x) / 2 == m + x / 2
  {
  }

  lemma JoinHalves(a: nat, x: nat, n: nat)
    requires n > 0
    ensures Join(a, x, n) % 2 == x % 2 && Join(a, x, n) / 2 == Join(a, x / 2, n - 1)
  {
    DoublePow2(n, a);
    hide Pow2;
    HalfOfEven(Pow2(n - 1) * a, x);
  }

  lemma JoinNothing(a: nat, b: nat)
    ensures Xor(Join(a, 0, 0), Join(b, 0, 0)) == Join(Xor(a, b), Xor(0, 0), 0)
  {
    XorZero(0);
    hide Xor;
    assert Join(a, 0, 0) == a && Join(b, 0, 0) == b && Join(Xor(a, b), 0, 0) == Xor(a, b);
  }

  lemma {:induction false} XorOfJoined(a: nat, x: nat, b: nat, y: nat, n: nat)
    requires x < Pow2(n) && y < Pow2(n)
    ensures Xor(Join(a, x, n), Join(b, y, n)) == Join(Xor(a, b), Xor(x, y), n)
    decreases n
  {
    hide Xor, Join;
    if n == 0 {
      JoinNothing(a, b);
    } else {
      hide *;
      HalfBelow(x, n);
      HalfBelow(y, n);
      XorOfJoined(a, x / 2, b, y / 2, n - 1);
      JoinHalves(a, x, n);
      JoinHalves(b, y, n);
      JoinHalves(Xor(a, b), Xor(x, y), n);
      XorBits(x, y);
      SameWord(Join(a, x, n), Join(b, y, n), Join(Xor(a, b), Xor(x, y), n), x, y);
    }
  }

  /** The word of four bytes, highest first. */
  function Word(a: bv8, b: bv8, c: bv8, d: bv8): nat {
    Join(Join(Join(Value(a), Value(b), 8), Value(c), 8), Value(d), 8)
  }

  lemma XorByBytes(a: nat, x: u8, b: nat, y: u8)
    ensures Xor(Join(a, x, 8), Join(b, y, 8)) == Join(Xor(a, b), Xor(x, y), 8)
  {
    assert Pow2(8) == 256 by { assert Pow2(4) == 16; }
    hide *;
    XorOfJoined(a, x, b, y, 8);
  }

  lemma WordIs(a: bv8, b: bv8, c: bv8, d: bv8)
    ensures Word(a, b, c, d) == 0x100_0000 * Value(a) + 0x1_0000 * Value(b) + 0x100 * Value(c) + Value(d)
  {
    assert Pow2(8) == 256 by { assert Pow2(4) == 16; }
    hide Value;
  }

  /** On words of 32 bits, `Xor` is the machine's exclusive-or. */
  lemma XorOfWords(a: bv8, b: bv8, c: bv8, d: bv8, e: bv8, f: bv8, g: bv8, h: bv8)
    ensures Xor(Word(a, b, c, d), Word(e, f, g, h)) == Word(a ^ e, b ^ f, c ^ g, d ^ h)
  {
    hide Xor, Value, Join;
    XorOfBytes(a, e);
    XorOfBytes(b, f);
    XorOfBytes(c, g);
    XorOfBytes(d, h);
    var x, y := Join(Value(a), Value(b), 8), Join(Value(e), Value(f), 8);
    XorByBytes(Value(a), Value(b), Value(e), Value(f));
    XorByBytes(x, Value(c), y, Value(g));
    XorByBytes(Join(x, Value(c), 8), Value(d), Join(y, Value(g), 8), Value(h));
  }

  // ----- known answers

  /** A bit step that folds the polynomial in, byte by byte. */
  lemma FoldIs(c: nat, d: nat, x: bv8, y: bv8, z: bv8, w: bv8)
    requires c == 2 * (0x100_0000 * Value(x) + 0x1_0000 * Value(y) + 0x100 * Value(z) + Value(w)) + 1
    requires d == 0x100_0000 * Value(x ^ 0xED) + 0x1_0000 * Value(y ^ 0xB8) + 0x100 * Value(z ^ 0x83) + Value(w ^ 0x20)
    ensures BitStep(c) == d
  {
    hide Xor, Word;
    XorOfWords(x, y, z, w, 0xED, 0xB8, 0x83, 0x20);
    WordIs(x, y, z, w);
    WordIs(0xED, 0xB8, 0x83, 0x20);
    WordIs(x ^ 0xED, y ^ 0xB8, z ^ 0x83, w ^ 0x20);
  }

  lemma Eight(c: seq<nat>)
    requires |c| == 9 && forall i | 0 <= i < 8 :: BitStep(c[i]) == c[i + 1]
    ensures BitSteps(c[0], 8) == c[8]
  {
    hide BitStep;
    for i := 0 to 8
      invariant BitSteps(c[8 - i], i) == c[8]
    {
    }
  }

  lemma FirstByteOut()
    ensures BitSteps(0xFFFF_FFFF, 8) == 0x2DFD_1072
  {
    hide Xor, BitSteps;
    FoldIs(0xFFFF_FFFF, 0x9247_7CDF, 0x7F, 0xFF, 0xFF, 0xFF);
    FoldIs(0x9247_7CDF, 0xA49B_3D4F, 0x49, 0x23, 0xBE, 0x6F);
    FoldIs(0xA49B_3D4F, 0xBFF5_1D87, 0x52, 0x4D, 0x9E, 0xA7);
    FoldIs(0xBFF5_1D87, 0xB242_0DE3, 0x5F, 0xFA, 0x8E, 0xC3);
    FoldIs(0xB242_0DE3, 0xB499_85D1, 0x59, 0x21, 0x06, 0xF1);
    FoldIs(0xB499_85D1, 0xB7F4_41C8, 0x5A, 0x4C, 0xC2, 0xE8);
    Eight([0xFFFF_FFFF, 0x9247_7CDF, 0xA49B_3D4F, 0xBFF5_1D87, 0xB242_0DE3,
           0xB499_85D1, 0xB7F4_41C8, 0x5BFA_20E4, 0x2DFD_1072]);
  }

  lemma SecondByteOut()
    ensures BitSteps(0x2DFD_1072, 8) == 0xBE26_ED00
  {
    hide Xor, BitSteps;
    FoldIs(0x16FE_8839, 0xE6C7_C73C, 0x0B, 0x7F, 0x44, 0x1C);
    FoldIs(0x39B1_F1CF, 0xF160_7BC7, 0x1C, 0xD8, 0xF8, 0xE7);
    FoldIs(0xF160_7BC7, 0x9508_BEC3, 0x78, 0xB0, 0x3D, 0xE3);
    FoldIs(0x9508_BEC3, 0xA73C_DC41, 0x4A, 0x84, 0x5F, 0x61);
    FoldIs(0xA73C_DC41, 0xBE26_ED00, 0x53, 0x9E, 0x6E, 0x20);
    Eight([0x2DFD_1072, 0x16FE_8839, 0xE6C7_C73C, 0x7363_E39E, 0x39B1_F1CF,
           0xF160_7BC7, 0x9508_BEC3, 0xA73C_DC41, 0xBE26_ED00]);
  }

  lemma ThirdByteOut()
    ensures BitSteps(0xBE26_ED00, 8) == 0x00BE_26ED
  {
    hide Xor, BitSteps;
    Eight([0xBE26_ED00, 0x5F13_7680, 0x2F89_BB40, 0x17C4_DDA0, 0x0BE2_6ED0,
           0x05F1_3768, 0x02F8_9BB4, 0x017C_4DDA, 0x00BE_26ED]);
  }

  lemma FourthByteOut()
    ensures BitSteps(0x00BE_26ED, 8) == 0xDEBB_20E3
  {
    hide Xor, BitSteps;
    FoldIs(0x00BE_26ED, 0xEDE7_9056, 0x00, 0x5F, 0x13, 0x76);
    FoldIs(0x76F3_C82B, 0xD6C1_6735, 0x3B, 0x79, 0xE4, 0x15);
    FoldIs(0xD6C1_6735, 0x86D8_30BA, 0x6B, 0x60, 0xB3, 0x9A);
    FoldIs(0x436C_185D, 0xCC0E_8F0E, 0x21, 0xB6, 0x0C, 0x2E);
    FoldIs(0x6607_4787, 0xDEBB_20E3, 0x33, 0x03, 0xA3, 0xC3);
    Eight([0x00BE_26ED, 0xEDE7_9056, 0x76F3_C82B, 0xD6C1_6735, 0x86D8_30BA,
           0x436C_185D, 0xCC0E_8F0E, 0x6607_4787, 0xDEBB_20E3]);
  }

  lemma OnesShiftedOut()
    ensures BitSteps(0xFFFF_FFFF, 32) == 0xDEBB_20E3
  {
    hide BitSteps;
    FirstByteOut();
    SecondByteOut();
    ThirdByteOut();
    FourthByteOut();
    BitStepsSplit(0xFFFF_FFFF, 8, 24);
    BitStepsSplit(0x2DFD_1072, 8, 16);
    BitStepsSplit(0xBE26_ED00, 8, 8);
  }

  /** A word and its complement have every bit between them. */
  lemma {:induction false} XorComplement(c: nat, n: nat)
    requires c < Pow2(n)
    ensures Xor(c, Pow2(n) - 1 - c) == Pow2(n) - 1
    decreases n
  {
    var d := Pow2(n) - 1 - c;
    if n == 0 {
      XorZero(0);
    } else {
      XorComplement(c / 2, n - 1);
      hide Xor;
      assert (c + d) % 2 == 1 && d / 2 == Pow2(n - 1) - 1 - c / 2;
      XorBits(c, d);
      SameBits(Xor(c, d), Pow2(n) - 1);
    }
  }

  /**
   The residue of the IEEE checksum: any bytes followed by their own checksum, low byte first, have the
   checksum 0x2144DF1C.
   */
  lemma ChecksumResidue(bytes: Bytes)
    ensures Checksum(bytes + ToLE(Checksum(bytes), 4)) == 0x2144_DF1C
  {
    hide Run, BitSteps, ToLE, FromLE, Xor;
    var start, trailer := Complement(0), ToLE(Checksum(bytes), 4);
    RunBelow(start, bytes);
    var c := Run(start, bytes);
    RunConcat(start, bytes, trailer);
    RunIsOneWord(c, trailer);
    Pow256Values();
    FromToLE(Checksum(bytes), 4);
    Pow2Values();
    XorComplement(c, 32);
    OnesShiftedOut();
  }

  /** Byte by byte, low bits first, from all ones: a single zero byte has the checksum 0xD202EF8D. */
  lemma ChecksumOfZero()
    ensures Checksum([0]) == 0xD202_EF8D && Checksum([]) == 0
  {
    hide BitSteps, Xor;
    XorZero(0xFFFF_FFFF);
    FirstByteOut();
    assert Run(0xFFFF_FFFF, [0]) == Run(ByteStep(0xFFFF_FFFF, 0), []);
  }

  lemma OneByte(c: nat, x: u8)
    ensures Run(c, [x]) == BitSteps(Xor(c, x), 8)
  {
    hide BitSteps, Xor;
    assert [x][1..] == [];
  }

  lemma HighBitFolds()
    ensures BitSteps(128, 8) == 0xEDB8_8320
  {
    assert Pow2(7) == 128 by { assert Pow2(4) == 16; }
    BitStepsShift(1, 7);
    BitStepsSplit(128, 7, 1);
    XorZero(0xEDB8_8320);
    hide Xor;
    assert BitSteps(1, 1) == BitStep(1);
  }

  lemma ComplementIsXor(c: u32)
    ensures Complement(c) == Xor(c, 0xFFFF_FFFF)
  {
    hide Xor;
    Pow2Values();
    XorComplement(c, 32);
    XorAssociates(c, c, Complement(c));
    XorSelf(c);
    XorZero(Complement(c));
  }

  /**
   The polynomial itself: inverting the highest bit of the last byte inverts exactly the bits 0xEDB88320
   of the checksum.
   */
  lemma LastBitFoldsPolynomial(bytes: Bytes, x: u8)
    requires x < 128
    ensures Xor(Checksum(bytes + [x]), Checksum(bytes + [x + 128])) == 0xEDB8_8320
  {
    hide Run, BitSteps, Xor;
    var start := Complement(0);
    RunBelow(start, bytes);
    var c := Run(start, bytes);
    RunConcat(start, bytes, [x]);
    RunConcat(start, bytes, [x + 128]);
    OneByte(c, x);
    OneByte(c, x + 128);
    assert Pow2(7) == 128 by { assert Pow2(4) == 16; }
    XorDisjoint(x, 1, 7);
    XorAssociates(c, x, 128);
    BitStepsLinear(Xor(c, x), 128, 8);
    HighBitFolds();
    var a, b := BitSteps(Xor(c, x), 8), BitSteps(Xor(c, x + 128), 8);
    RunBelow(c, [x]);
    RunBelow(c, [x + 128]);
    ComplementIsXor(a);
    ComplementIsXor(b);
    FoldBoth(a, b, 0xFFFF_FFFF);
    XorAssociates(a, a, 0xEDB8_8320);
    XorSelf(a);
    XorZero(0xEDB8_8320);
  }
}
