/** CRC-32 with the reflected polynomial of section 8 of RFC 1952.

    The reference is the bit-serial shift register: message bits enter one at a time, least
    significant bit of each byte first.  The register is itself shown to be the remainder of
    polynomial division.  The table-driven loops are proved equal to the reference over buffers
    of any length, and the algebra of the register (linearity, bijectivity) gives what the
    checksum is for: it separates any two messages that differ inside 32 consecutive bits, and a
    frame that carries its own checksum is recognised exactly. */
module Crc32 {
  import opened Basics
  import opened Gf2

  type Word = n: nat | n < 0x1_0000_0000

  const POLY: Word := 0xedb88320
  const ONES: Word := 0xffff_ffff
  /** POLY with the leading coefficient it leaves implicit. */
  const GENERATOR: nat := 2 * POLY + 1

  /** The exponents of the polynomial in section 8 of RFC 1952, which is that of IEEE 802.3. */
  const TERMS := {32, 26, 23, 22, 16, 12, 11, 10, 8, 7, 5, 4, 2, 1, 0}

  lemma UpperDigits()
    ensures LowBits(0x1db71, 17) == [
      true, false, false, false, true, true, true, false,
      true, true, false, true, true, false, true, true,
      true]
  {
    hide LowBits;
    HexDigit(0x1db7, 1, 13);
    HexDigit(0x1db, 7, 9);
    HexDigit(0x1d, 0xb, 5);
    HexDigit(0x1, 0xd, 1);
    BinaryDigit(0, 1, 0);
    NoDigits(0);
  }

  lemma LowerDigits()
    ensures LowBits(GENERATOR, 33) == [
      true, false, false, false, false, false, true, false,
      false, true, true, false, false, false, false, false] + LowBits(0x1db71, 17)
  {
    hide LowBits;
    HexDigit(0x1db71064, 1, 29);
    HexDigit(0x1db7106, 4, 25);
    HexDigit(0x1db710, 6, 21);
    HexDigit(0x1db71, 0, 17);
  }

  /** The generator has exactly these terms: the coefficient of x^k is its digit 32 - k, since the
      highest power is sent first. */
  lemma GeneratorTerms(k: nat)
    requires k <= 32
    ensures LowBits(GENERATOR, 33)[32 - k] <==> k in TERMS
  {
    hide LowBits;
    LowerDigits();
    UpperDigits();
  }

  lemma NoDigits(b: nat)
    ensures LowBits(b, 0) == []
  {
  }

  lemma BinaryDigit(q: nat, d: nat, n: nat)
    requires d < 2
    ensures LowBits(2 * q + d, n + 1) == [d == 1] + LowBits(q, n)
  {
    assert (2 * q + d) / 2 == q;
  }

  lemma HexDigit(q: nat, d: nat, n: nat)
    requires d < 16
    ensures LowBits(16 * q + d, n + 4)
            == [d % 2 == 1, d / 2 % 2 == 1, d / 4 % 2 == 1, d / 8 == 1] + LowBits(q, n)
  {
    hide LowBits;
    BinaryDigit(8 * q + d / 2, d % 2, n + 3);
    BinaryDigit(4 * q + d / 4, d / 2 % 2, n + 2);
    BinaryDigit(2 * q + d / 8, d / 4 % 2, n + 1);
    BinaryDigit(q, d / 8, n);
  }

  // ----- The reference: one bit at a time -----

  /** Feed one message bit: the bit leaving the register, combined with the message bit,
      decides whether the polynomial is subtracted. */
  function FeedBit(reg: nat, bit: bool): nat {
    if (reg % 2 == 1) != bit then Xor(POLY, reg / 2) else reg / 2
  }

  function FeedBits(reg: nat, bits: seq<bool>): nat
    decreases |bits|
  {
    if bits == [] then reg else FeedBits(FeedBit(reg, bits[0]), bits[1..])
  }

  /** The `n` low bits of `b`, least significant first. */
  function LowBits(b: nat, n: nat): (bits: seq<bool>)
    ensures |bits| == n
    decreases n
  {
    if n == 0 then [] else [b % 2 == 1] + LowBits(b / 2, n - 1)
  }

  /** The bits of a buffer in transmission order. */
  function BufferBits(buf: seq<Byte>): (bits: seq<bool>)
    ensures |bits| == 8 * |buf|
  {
    if buf == [] then [] else LowBits(buf[0], 8) + BufferBits(buf[1..])
  }

  /** The number whose binary digits are `bits`, least significant first. */
  function Value(bits: seq<bool>): nat {
    if bits == [] then 0 else (if bits[0] then 1 else 0) + 2 * Value(bits[1..])
  }

  // ----- The register without input -----

  function Step(c: nat): nat {
    if c % 2 == 1 then Xor(POLY, c / 2) else c / 2
  }

  function Steps(n: nat, c: nat): nat {
    if n == 0 then c else Steps(n - 1, Step(c))
  }

  lemma StepsNext(n: nat, c: nat)
    ensures Steps(n + 1, c) == Steps(n, Step(c)) && Steps(0, c) == c
  {
  }

  lemma PowersOfTwo()
    ensures Pow2(31) == 0x8000_0000 && Pow2(32) == 0x1_0000_0000
  {
    assert Pow2(8) == 256;
    assert Pow2(16) == 0x1_0000;
    assert Pow2(24) == 0x100_0000;
    assert Pow2(31) == 0x8000_0000;
  }

  /** Twice a step is the sum that clears the low bit: the step is a division by x. */
  lemma StepDoubled(c: nat)
    ensures 2 * Step(c) == Xor(c, c % 2 * GENERATOR)
  {
    if c % 2 == 1 {
      XorBits(c, GENERATOR);
      XorCommutes(c / 2, POLY);
      assert GENERATOR / 2 == POLY;
    }
  }

  lemma StepLinear(a: nat, b: nat)
    ensures Step(Xor(a, b)) == Xor(Step(a), Step(b))
  {
    hide Xor, Step;
    var p, q := a % 2 * GENERATOR, b % 2 * GENERATOR;
    XorBits(a, b);
    XorSelf(GENERATOR);
    XorZero(GENERATOR);
    XorZero(0);
    assert Xor(p, q) == Xor(a, b) % 2 * GENERATOR;
    StepDoubled(a);
    StepDoubled(b);
    StepDoubled(Xor(a, b));
    XorDoubles(Step(a), Step(b));
    XorSwap(a, p, b, q);
  }

  lemma {:induction false} StepsLinear(n: nat, a: nat, b: nat)
    ensures Steps(n, Xor(a, b)) == Xor(Steps(n, a), Steps(n, b))
    decreases n
  {
    if n > 0 {
      StepLinear(a, b);
      StepsLinear(n - 1, Step(a), Step(b));
    }
  }

  lemma StepBelow(c: nat)
    requires c < 0x1_0000_0000
    ensures Step(c) < 0x1_0000_0000
  {
    PowersOfTwo();
    XorBelow(POLY, c / 2, 32);
  }

  lemma {:induction false} StepsBelow(n: nat, c: nat)
    requires c < 0x1_0000_0000
    ensures Steps(n, c) < 0x1_0000_0000
    decreases n
  {
    if n > 0 {
      StepBelow(c);
      StepsBelow(n - 1, Step(c));
    }
  }

  function Unstep(c: nat): nat {
    if c < 0x8000_0000 then 2 * c else 2 * Xor(POLY, c) + 1
  }

  lemma UnstepStep(c: nat)
    requires c < 0x1_0000_0000
    ensures Unstep(Step(c)) == c
  {
    if c % 2 == 1 {
      PowersOfTwo();
      XorKeepsDegree(POLY, c / 2, 31);
      XorCancels(POLY, c / 2);
    }
  }

  /** Any number of register steps is injective on 32-bit registers. */
  lemma {:induction false} StepsInjective(n: nat, a: Word, b: Word)
    requires Steps(n, a) == Steps(n, b)
    ensures a == b
    decreases n
  {
    if n > 0 {
      StepBelow(a);
      StepBelow(b);
      StepsInjective(n - 1, Step(a), Step(b));
      UnstepStep(a);
      UnstepStep(b);
    }
  }

  lemma {:induction false} StepsZero(n: nat)
    ensures Steps(n, 0) == 0
    decreases n
  {
    if n > 0 {
      StepsZero(n - 1);
    }
  }

  lemma {:induction false} StepsShifted(n: nat, k: nat)
    ensures Steps(n, Shl(k, n)) == k
    decreases n
  {
    if n > 0 {
      assert Step(Shl(k, n)) == Shl(k, n - 1);
      StepsShifted(n - 1, k);
    }
  }

  // ----- Feeding bits is stepping a sum -----

  lemma FeedBitIsStep(reg: nat, bit: bool)
    ensures FeedBit(reg, bit) == Step(Xor(reg, if bit then 1 else 0))
  {
    hide Xor;
    XorBits(reg, 1);
    XorZero(reg);
    XorZero(reg / 2);
  }

  /** Feeding `bits` is adding their value to the register and stepping once per bit. */
  lemma {:induction false} FeedBitsIsSteps(reg: nat, bits: seq<bool>)
    ensures FeedBits(reg, bits) == Steps(|bits|, Xor(reg, Value(bits)))
    decreases |bits|
  {
    hide Xor, FeedBit, Step;
    if bits == [] {
      XorZero(reg);
    } else {
      var first := if bits[0] then 1 else 0;
      var rest := Value(bits[1..]);
      FeedBitIsStep(reg, bits[0]);
      FeedBitsIsSteps(FeedBit(reg, bits[0]), bits[1..]);
      StepDigit(reg, first, rest);
    }
  }

  lemma StepDigit(reg: nat, first: nat, rest: nat)
    requires first < 2
    ensures Step(Xor(reg, first + 2 * rest)) == Xor(Step(Xor(reg, first)), rest)
  {
    hide Xor;
    assert Pow2(1) == 2 && Shl(rest, 1) == 2 * rest;
    XorDisjoint(first, rest, 1);
    XorAssociates(reg, first, 2 * rest);
    StepLinear(Xor(reg, first), 2 * rest);
    assert Step(2 * rest) == rest;
  }

  // ----- The register is a remainder -----

  function Quotient(n: nat, x: nat): nat {
    if n == 0 then 0 else x % 2 + 2 * Quotient(n - 1, Step(x))
  }

  lemma ClmulDigit(bit: nat, q: nat, g: nat)
    requires bit < 2
    ensures Clmul(bit + 2 * q, g) == Xor(bit * g, 2 * Clmul(q, g))
  {
    hide Xor;
    assert (bit + 2 * q) % 2 == bit && (bit + 2 * q) / 2 == q;
    if bit + 2 * q == 0 {
      XorZero(0);
    }
  }

  /** Cancelling the low digit of `x` with the generator leaves twice a step. */
  lemma CancelDigit(x: nat, c: nat)
    ensures Xor(x, Xor(x % 2 * GENERATOR, 2 * c)) == 2 * Xor(Step(x), c)
  {
    hide Xor, Step;
    XorAssociates(x, x % 2 * GENERATOR, 2 * c);
    StepDoubled(x);
    XorDoubles(Step(x), c);
  }

  lemma {:induction false} Division(n: nat, x: nat)
    ensures Quotient(n, x) < Pow2(n)
    ensures Shl(Steps(n, x), n) == Xor(x, Clmul(Quotient(n, x), GENERATOR))
    decreases n
  {
    hide Xor, Step, Clmul;
    if n == 0 {
      XorZero(x);
      ClmulZero(GENERATOR);
    } else {
      Division(n - 1, Step(x));
      var q := Quotient(n - 1, Step(x));
      ClmulDigit(x % 2, q, GENERATOR);
      CancelDigit(x, Clmul(q, GENERATOR));
    }
  }

  /** If a sum has no low digit, the generator was added as often as the low digit asked. */
  lemma DigitParity(x: nat, bit: nat, c: nat)
    requires bit < 2
    ensures Xor(x, Xor(bit * GENERATOR, 2 * c)) % 2 == 0 <==> bit == x % 2
  {
    hide Xor;
    XorBits(bit * GENERATOR, 2 * c);
    XorBits(x, Xor(bit * GENERATOR, 2 * c));
  }

  lemma DropDigit(x: nat, q: nat, s: nat)
    requires 2 * s == Xor(x, Clmul(q, GENERATOR))
    ensures s == Xor(Step(x), Clmul(q / 2, GENERATOR))
  {
    hide Xor, Step, Clmul;
    var bit, c := q % 2, Clmul(q / 2, GENERATOR);
    ClmulDigit(bit, q / 2, GENERATOR);
    DigitParity(x, bit, c);
    CancelDigit(x, c);
  }

  lemma {:induction false} DivisionUnique(n: nat, x: nat, r: nat, q: nat)
    requires q < Pow2(n)
    requires Shl(r, n) == Xor(x, Clmul(q, GENERATOR))
    ensures r == Steps(n, x)
    decreases n
  {
    hide Xor, Step, Clmul;
    if n == 0 {
      XorZero(x);
      ClmulZero(GENERATOR);
    } else {
      DropDigit(x, q, Shl(r, n - 1));
      DivisionUnique(n - 1, Step(x), r, q / 2);
    }
  }

  ghost predicate IsRemainder(r: nat, n: nat, dividend: nat) {
    exists q: nat :: q < Pow2(n) && Shl(r, n) == Xor(dividend, Clmul(q, GENERATOR))
  }

  /** The register holds `r` exactly when `r` is what is left of the initial register plus the
      message after cancelling every digit with multiples of the generator polynomial. */
  lemma RegisterIsRemainder(reg: nat, bits: seq<bool>, r: nat)
    ensures r == FeedBits(reg, bits) <==> IsRemainder(r, |bits|, Xor(reg, Value(bits)))
  {
    hide Xor, Steps, Clmul, FeedBits, Shl;
    var x := Xor(reg, Value(bits));
    FeedBitsIsSteps(reg, bits);
    Division(|bits|, x);
    forall q: nat | q < Pow2(|bits|) && Shl(r, |bits|) == Xor(x, Clmul(q, GENERATOR))
      ensures r == FeedBits(reg, bits)
    {
      DivisionUnique(|bits|, x, r, q);
    }
  }

  // ----- Consequences for messages -----

  lemma {:induction false} FeedBitsConcat(reg: nat, a: seq<bool>, b: seq<bool>)
    ensures FeedBits(reg, a + b) == FeedBits(FeedBits(reg, a), b)
    decreases |a|
  {
    if a == [] {
      assert a + b == b;
    } else {
      assert (a + b)[1..] == a[1..] + b;
      FeedBitsConcat(FeedBit(reg, a[0]), a[1..], b);
    }
  }

  lemma {:induction false} ValueBelow(bits: seq<bool>)
    ensures Value(bits) < Pow2(|bits|)
  {
    if bits != [] {
      ValueBelow(bits[1..]);
    }
  }

  lemma {:induction false} ValueInjective(a: seq<bool>, b: seq<bool>)
    requires |a| == |b| && Value(a) == Value(b)
    ensures a == b
    decreases |a|
  {
    if a != [] {
      assert a[0] == b[0];
      ValueInjective(a[1..], b[1..]);
      assert a == [a[0]] + a[1..] && b == [b[0]] + b[1..];
    }
  }

  lemma {:induction false} Pow2Monotone(m: nat, n: nat)
    requires m <= n
    ensures Pow2(m) <= Pow2(n)
    decreases n
  {
    if m < n {
      Pow2Monotone(m, n - 1);
    }
  }

  lemma SumBelow(reg: Word, bits: seq<bool>)
    requires |bits| <= 32
    ensures Xor(reg, Value(bits)) < 0x1_0000_0000
  {
    hide Xor, Value;
    ValueBelow(bits);
    Pow2Monotone(|bits|, 32);
    PowersOfTwo();
    XorBelow(reg, Value(bits), 32);
  }

  lemma {:induction false} FeedBitsBelow(reg: Word, bits: seq<bool>)
    ensures FeedBits(reg, bits) < 0x1_0000_0000
    decreases |bits|
  {
    if bits != [] {
      PowersOfTwo();
      XorBelow(POLY, reg / 2, 32);
      FeedBitsBelow(FeedBit(reg, bits[0]), bits[1..]);
    }
  }

  /** For a fixed message the register is an injective function of its initial value. */
  lemma {:induction false} RegisterInjective(r: Word, q: Word, bits: seq<bool>)
    ensures FeedBits(r, bits) == FeedBits(q, bits) <==> r == q
    decreases |bits|
  {
    if bits != [] && FeedBits(r, bits) == FeedBits(q, bits) {
      FeedBitsBelow(r, bits[..1]);
      FeedBitsBelow(q, bits[..1]);
      var bit := if bits[0] then 1 else 0;
      RegisterInjective(FeedBit(r, bits[0]), FeedBit(q, bits[0]), bits[1..]);
      FeedBitIsStep(r, bits[0]);
      FeedBitIsStep(q, bits[0]);
      SumBelow(r, bits[..1]);
      SumBelow(q, bits[..1]);
      assert Value(bits[..1]) == bit;
      StepsInjective(1, Xor(r, bit), Xor(q, bit));
      XorCommutes(r, bit);
      XorCommutes(q, bit);
      XorInjective(bit, r, q);
    }
  }

  /** Error detection: two messages that differ only inside a window of at most 32 consecutive
      bits leave different registers, whatever the initial register and the surrounding bits. */
  lemma BurstDetected(reg: Word, before: seq<bool>, x: seq<bool>, y: seq<bool>, after: seq<bool>)
    requires |x| == |y| <= 32 && x != y
    ensures FeedBits(reg, before + x + after) != FeedBits(reg, before + y + after)
  {
    hide Xor, FeedBits, Steps, Value;
    FeedBitsBelow(reg, before);
    var r: Word := FeedBits(reg, before);
    FeedBitsConcat(reg, before, x);
    FeedBitsConcat(reg, before, y);
    FeedBitsConcat(reg, before + x, after);
    FeedBitsConcat(reg, before + y, after);
    FeedBitsBelow(r, x);
    FeedBitsBelow(r, y);
    if FeedBits(reg, before + x + after) == FeedBits(reg, before + y + after) {
      RegisterInjective(FeedBits(r, x), FeedBits(r, y), after);
      FeedBitsIsSteps(r, x);
      FeedBitsIsSteps(r, y);
      SumBelow(r, x);
      SumBelow(r, y);
      StepsInjective(|x|, Xor(r, Value(x)), Xor(r, Value(y)));
      XorInjective(r, Value(x), Value(y));
      ValueInjective(x, y);
    }
  }

  // ----- Buffers of bytes -----

  /** The register after `buf`. */
  function Register(reg: Word, buf: seq<Byte>): Word {
    FeedBitsBelow(reg, BufferBits(buf));
    FeedBits(reg, BufferBits(buf))
  }

  lemma {:induction false} BufferBitsConcat(a: seq<Byte>, b: seq<Byte>)
    ensures BufferBits(a + b) == BufferBits(a) + BufferBits(b)
  {
    if a == [] {
      assert a + b == b;
    } else {
      assert (a + b)[1..] == a[1..] + b;
      BufferBitsConcat(a[1..], b);
    }
  }

  /** Feeding a message in two parts is feeding it whole. */
  lemma RegisterConcat(reg: Word, a: seq<Byte>, b: seq<Byte>)
    ensures Register(reg, a + b) == Register(Register(reg, a), b)
  {
    BufferBitsConcat(a, b);
    FeedBitsConcat(reg, BufferBits(a), BufferBits(b));
  }

  lemma {:induction false} LowBitsValue(b: nat, n: nat)
    requires b < Pow2(n)
    ensures Value(LowBits(b, n)) == b
    decreases n
  {
    if n > 0 {
      LowBitsValue(b / 2, n - 1);
      assert LowBits(b, n)[1..] == LowBits(b / 2, n - 1);
    }
  }

  lemma ConcatInjective(a: seq<bool>, b: seq<bool>, c: seq<bool>, d: seq<bool>)
    requires |a| == |c| && a + b == c + d
    ensures a == c && b == d
  {
    assert a == (a + b)[..|a|] && b == (a + b)[|a|..];
  }

  lemma {:induction false} BufferBitsInjective(a: seq<Byte>, b: seq<Byte>)
    requires |a| == |b| && BufferBits(a) == BufferBits(b)
    ensures a == b
    decreases |a|
  {
    if a != [] {
      ConcatInjective(LowBits(a[0], 8), BufferBits(a[1..]), LowBits(b[0], 8), BufferBits(b[1..]));
      hide LowBits, BufferBits, Value;
      assert Pow2(8) == 256;
      LowBitsValue(a[0], 8);
      LowBitsValue(b[0], 8);
      BufferBitsInjective(a[1..], b[1..]);
      assert a == [a[0]] + a[1..] && b == [b[0]] + b[1..];
    }
  }

  /** Buffers of one length that differ only inside four consecutive bytes have different
      registers. */
  lemma FourBytesDetected(reg: Word, a: seq<Byte>, b: seq<Byte>, at: nat)
    requires |a| == |b| && at + 4 <= |a| && a != b
    requires a[..at] == b[..at] && a[at + 4..] == b[at + 4..]
    ensures Register(reg, a) != Register(reg, b)
  {
    hide BufferBits, FeedBits;
    var x, y := a[at..at + 4], b[at..at + 4];
    var before, after := a[..at], a[at + 4..];
    assert a == before + x + after && b == before + y + after;
    BufferBitsConcat(before, x);
    BufferBitsConcat(before, y);
    BufferBitsConcat(before + x, after);
    BufferBitsConcat(before + y, after);
    if BufferBits(x) == BufferBits(y) {
      BufferBitsInjective(x, y);
    }
    BurstDetected(reg, BufferBits(before), BufferBits(x), BufferBits(y), BufferBits(after));
  }

  /** The `n` low bytes of `w`, least significant first. */
  function LowBytes(w: nat, n: nat): (bytes: seq<Byte>)
    ensures |bytes| == n
    decreases n
  {
    if n == 0 then [] else [w % 256] + LowBytes(w / 256, n - 1)
  }

  function LittleEndian(w: Word): (bytes: seq<Byte>)
    ensures |bytes| == 4
  {
    LowBytes(w, 4)
  }

  lemma {:induction false} ValueConcat(a: seq<bool>, b: seq<bool>)
    ensures Value(a + b) == Value(a) + Shl(Value(b), |a|)
    decreases |a|
  {
    if a == [] {
      assert a + b == b;
    } else {
      assert (a + b)[1..] == a[1..] + b;
      ValueConcat(a[1..], b);
    }
  }

  /** The value of a buffer as a little-endian number. */
  lemma BufferValue(b0: Byte, rest: seq<Byte>)
    ensures Value(BufferBits([b0] + rest)) == b0 + 256 * Value(BufferBits(rest))
  {
    var v := Value(BufferBits(rest));
    assert ([b0] + rest)[1..] == rest;
    ValueConcat(LowBits(b0, 8), BufferBits(rest));
    assert Pow2(8) == 256;
    LowBitsValue(b0, 8);
    assert Shl(v, 4) == 16 * v;
    assert Shl(v, 8) == 256 * v;
  }

  lemma {:induction false} LowBytesValue(w: nat, n: nat)
    requires w < Pow2(8 * n)
    ensures Value(BufferBits(LowBytes(w, n))) == w
    decreases n
  {
    if n > 0 {
      var m := 8 * (n - 1);
      assert Pow2(m + 8) == 2 * Pow2(m + 7) == 4 * Pow2(m + 6) == 8 * Pow2(m + 5) == 16 * Pow2(m + 4);
      assert Pow2(m + 4) == 2 * Pow2(m + 3) == 4 * Pow2(m + 2) == 8 * Pow2(m + 1) == 16 * Pow2(m);
      LowBytesValue(w / 256, n - 1);
      BufferValue(w % 256, LowBytes(w / 256, n - 1));
    }
  }

  lemma RegisterOfFour(reg: Word, w: Word)
    ensures Register(reg, LittleEndian(w)) == Steps(32, Xor(reg, w))
  {
    hide Value, Steps, FeedBits;
    FeedBitsIsSteps(reg, BufferBits(LittleEndian(w)));
    PowersOfTwo();
    LowBytesValue(w, 4);
  }

  /** A frame check: four trailing bytes drive the register to zero exactly when they are the
      register of what precedes them. */
  lemma ResidueZeroIff(reg: Word, buf: seq<Byte>, w: Word)
    ensures Register(reg, buf + LittleEndian(w)) == 0 <==> w == Register(reg, buf)
  {
    hide Xor, Steps, Register, LittleEndian;
    var r := Register(reg, buf);
    RegisterConcat(reg, buf, LittleEndian(w));
    RegisterOfFour(r, w);
    StepsZero(32);
    if w == r {
      XorSelf(r);
    } else if Steps(32, Xor(r, w)) == 0 {
      PowersOfTwo();
      XorBelow(r, w, 32);
      StepsInjective(32, Xor(r, w), 0);
      XorSelf(r);
      XorInjective(r, r, w);
    }
  }

  /** The register is an additive function of initial value and message together. */
  lemma {:induction false} RegisterLinear(r: nat, q: nat, a: seq<bool>, b: seq<bool>)
    requires |a| == |b|
    ensures Xor(FeedBits(r, a), FeedBits(q, b))
            == FeedBits(Xor(r, q), seq(|a|, i requires 0 <= i < |a| => a[i] != b[i]))
  {
    hide Xor, Steps, FeedBits, Value;
    var ab := seq(|a|, i requires 0 <= i < |a| => a[i] != b[i]);
    FeedBitsIsSteps(r, a);
    FeedBitsIsSteps(q, b);
    FeedBitsIsSteps(Xor(r, q), ab);
    StepsLinear(|a|, Xor(r, Value(a)), Xor(q, Value(b)));
    XorSwap(r, Value(a), q, Value(b));
    ValueLinear(a, b, ab);
  }

  lemma {:induction false} ValueLinear(a: seq<bool>, b: seq<bool>, ab: seq<bool>)
    requires |a| == |b| == |ab|
    requires forall i :: 0 <= i < |a| ==> ab[i] == (a[i] != b[i])
    ensures Xor(Value(a), Value(b)) == Value(ab)
    decreases |a|
  {
    hide Xor;
    if a == [] {
      XorZero(0);
    } else {
      ValueLinear(a[1..], b[1..], ab[1..]);
      XorDigit(if a[0] then 1 else 0, if b[0] then 1 else 0, Value(a[1..]), Value(b[1..]));
    }
  }

  // ----- The table-driven forms -----

  function TableEntry(i: nat): nat { Steps(8, i) }

  ghost predicate IsTable(t: seq<Word>) {
    |t| == 256 && forall i :: 0 <= i < 256 ==> t[i] == TableEntry(i)
  }

  lemma ShlByte(high: nat)
    ensures Shl(high, 8) == 256 * high && Pow2(8) == 256
  {
    assert Shl(high, 4) == 16 * high;
    assert Pow2(4) == 16;
  }

  /** Eight steps at once: the low byte is looked up, the rest is shifted. */
  lemma TableStep(x: nat)
    ensures Steps(8, x) == Xor(Steps(8, x % 256), x / 256)
  {
    hide Xor, Steps, Shl, Pow2;
    var low, high := x % 256, x / 256;
    ShlByte(high);
    XorDisjoint(low, high, 8);
    StepsLinear(8, low, Shl(high, 8));
    StepsShifted(8, high);
  }

  lemma ByteSplits(crc: nat, b: Byte)
    ensures Xor(crc, b) % 256 == Xor(crc % 256, b) < 256
    ensures Xor(crc, b) / 256 == crc / 256
  {
    hide Xor, Shl, Pow2;
    var low, high := crc % 256, crc / 256;
    ShlByte(high);
    ShlByte(0);
    XorSplits(low, b, high, 0, 8);
    XorZero(high);
  }

  /** One lookup is eight bits of the reference. */
  lemma LookupIsByte(reg: Word, b: Byte, t: seq<Word>)
    requires IsTable(t)
    ensures Xor(reg, b) % 256 == Xor(reg % 256, b) < 256
    ensures Xor(t[Xor(reg, b) % 256], reg / 256) == Register(reg, [b])
  {
    hide Xor, Steps, FeedBits, Value;
    ByteSplits(reg, b);
    TableStep(Xor(reg, b));
    RegisterOfByte(reg, b);
  }

  lemma RegisterOfByte(reg: Word, b: Byte)
    ensures Register(reg, [b]) == Steps(8, Xor(reg, b))
  {
    hide Xor, Steps, FeedBits, Value;
    assert BufferBits([b]) == LowBits(b, 8);
    assert Pow2(8) == 256;
    LowBitsValue(b, 8);
    FeedBitsIsSteps(reg, LowBits(b, 8));
  }

  lemma RegisterNext(reg: Word, buf: seq<Byte>, i: nat)
    requires i < |buf|
    ensures Register(reg, buf[..i + 1]) == Register(Register(reg, buf[..i]), [buf[i]])
  {
    assert buf[..i + 1] == buf[..i] + [buf[i]];
    RegisterConcat(reg, buf[..i], [buf[i]]);
  }

  /** The file's three table loops: entry `i` is eight register steps of `i`. */
  method FillTable(table: array<Word>)
    requires table.Length == 256
    modifies table
    ensures IsTable(table[..])
  {
    hide Xor;
    for i := 0 to 256
      invariant forall k :: 0 <= k < i ==> table[k] == TableEntry(k)
    {
      var c: Word := i;
      for j := 0 to 8
        invariant Steps(8 - j, c) == TableEntry(i)
        invariant forall k :: 0 <= k < i ==> table[k] == TableEntry(k)
      {
        StepBelow(c);
        assert Steps(8 - j, c) == Steps(8 - (j + 1), Step(c));
        if c % 2 == 1 {
          c := Xor(POLY, c / 2);
        } else {
          c := c / 2;
        }
      }
      assert c == TableEntry(i);
      table[i] := c;
    }
  }

  /** `crc32`: continue a raw register over a buffer. */
  method Crc32Raw(table: array<Word>, crc: Word, buffer: seq<Byte>) returns (reg: Word)
    requires IsTable(table[..])
    ensures reg == Register(crc, buffer)
  {
    hide Xor, Register, Steps;
    reg := crc;
    RegisterEmpty(crc);
    for i := 0 to |buffer|
      invariant reg == Register(crc, buffer[..i])
    {
      LookupIsByte(reg, buffer[i], table[..]);
      RegisterNext(crc, buffer, i);
      reg := Xor(table[Xor(reg, buffer[i]) % 256], reg / 256);
    }
    assert buffer[..|buffer|] == buffer;
  }

  lemma RegisterEmpty(crc: Word)
    ensures forall buf: seq<Byte> :: buf == [] ==> Register(crc, buf) == crc
  {
  }

  /** `~w` on 32 bits. */
  function Not(w: Word): Word { ONES - w }

  /** It is the sum with the polynomial of all ones. */
  lemma NotIsXor(w: Word)
    ensures Not(w) == Xor(w, ONES)
  {
    hide Xor;
    PowersOfTwo();
    XorWithOnes(w, 32);
  }

  lemma {:induction false} XorWithOnes(w: nat, n: nat)
    requires w < Pow2(n)
    ensures Xor(w, Pow2(n) - 1) == Pow2(n) - 1 - w
    decreases n
  {
    hide Xor;
    if n == 0 {
      XorZero(0);
    } else {
      XorWithOnes(w / 2, n - 1);
      XorDigit(w % 2, 1, w / 2, Pow2(n - 1) - 1);
    }
  }

  /** `calc_crc`: the raw register over the whole buffer, from all ones. */
  method CalcCrc(table: array<Word>, buf: seq<Byte>) returns (reg: Word)
    requires IsTable(table[..])
    ensures reg == Register(ONES, buf)
  {
    reg := Crc32Raw(table, ONES, buf);
  }

  /** `lut_crc32`: builds its own table, complements on the way in and out. */
  method LutCrc32(crc: Word, buf: seq<Byte>) returns (out: Word)
    ensures out == Not(Register(Not(crc), buf))
  {
    hide Xor, Register, Steps;
    var table := new Word[256](_ => 0);
    FillTable(table);
    var start := Not(crc);
    var reg := start;
    RegisterEmpty(start);
    for p := 0 to |buf|
      invariant IsTable(table[..])
      invariant reg == Register(start, buf[..p])
    {
      LookupIsByte(reg, buf[p], table[..]);
      RegisterNext(start, buf, p);
      XorCommutes(reg / 256, table[Xor(reg % 256, buf[p])]);
      reg := Xor(reg / 256, table[Xor(reg % 256, buf[p])]);
    }
    assert buf[..|buf|] == buf;
    out := Not(reg);
  }

  /** `crc32_get`: the caller's table, complemented on the way out. */
  method Crc32Get(table: array<Word>, buf: seq<Byte>) returns (out: Word)
    requires IsTable(table[..])
    ensures out == Not(Register(ONES, buf))
  {
    var reg := Crc32Raw(table, ONES, buf);
    out := Not(reg);
  }

  /** The specification of `lut_crc32` as a function. */
  function Lut(crc: Word, buf: seq<Byte>): Word {
    Not(Register(Not(crc), buf))
  }

  /** `lut_crc32` may be fed in pieces, and from 0 it is the complement of `calc_crc`, which is
      what `crc32_get` returns. */
  lemma LutIncremental(crc: Word, a: seq<Byte>, b: seq<Byte>)
    ensures Lut(Lut(crc, a), b) == Lut(crc, a + b)
    ensures Lut(0, a) == Not(Register(ONES, a))
  {
    hide Register;
    RegisterConcat(Not(crc), a, b);
  }
}
