/** The register of crc32.c on machine words, the numbers it stands for, and the published check
    value that says which CRC this is. */
module MachineCrc {
  import opened Basics
  import opened Gf2
  import opened Crc32

  function Low(w: bv32): bool { w & 1 == 1 }

  function Half(w: bv32): bv32 { w >> 1 }

  function Sum(a: bv32, b: bv32): bv32 { a ^ b }

  /** One round of the table loop, as the source writes it. */
  function Round(c: bv32): bv32 {
    if c & 1 == 1 then 0xedb88320 ^ (c >> 1) else c >> 1
  }

  /** A byte of the message, one bit at a time. */
  function Feed(c: bv32, b: bv32): bv32 {
    Round(Round(Round(Round(Round(Round(Round(Round(c ^ b))))))))
  }

  // ----- The number a word stands for -----

  /** The number with the `n` low binary digits of `w`. */
  function Digits(w: bv32, n: nat): nat
    decreases n
  {
    if n == 0 then 0 else (if Low(w) then 1 else 0) + 2 * Digits(Half(w), n - 1)
  }

  function Number(w: bv32): nat { Digits(w, 32) }

  lemma DigitsNone(w: bv32)
    ensures Digits(w, 0) == 0
  {
  }

  lemma DigitsNext(w: bv32, n: nat)
    ensures Digits(w, n + 1) == (if Low(w) then 1 else 0) + 2 * Digits(Half(w), n)
  {
  }

  lemma SumBits(a: bv32, b: bv32)
    ensures Half(Sum(a, b)) == Sum(Half(a), Half(b))
    ensures Low(Sum(a, b)) == (Low(a) != Low(b))
  {
  }

  /** The machine's exclusive or is addition of polynomials. */
  lemma {:induction false} DigitsSum(a: bv32, b: bv32, n: nat)
    ensures Digits(Sum(a, b), n) == Xor(Digits(a, n), Digits(b, n))
    decreases n
  {
    hide Xor, Low, Half, Sum, Digits;
    DigitsNone(a);
    DigitsNone(b);
    DigitsNone(Sum(a, b));
    if n == 0 {
      XorZero(0);
    } else {
      SumBits(a, b);
      DigitsNext(a, n - 1);
      DigitsNext(b, n - 1);
      DigitsNext(Sum(a, b), n - 1);
      DigitsSum(Half(a), Half(b), n - 1);
      XorDigit(if Low(a) then 1 else 0, if Low(b) then 1 else 0, Digits(Half(a), n - 1), Digits(Half(b), n - 1));
    }
  }

  /** `w` has at most `n` binary digits. */
  predicate Fits(w: bv32, n: nat)
    decreases n
  {
    if n == 0 then w == 0 else Fits(Half(w), n - 1)
  }

  predicate AtMost(w: bv32, m: bv32) { w <= m }

  lemma HalfOrder(w: bv32, m: bv32)
    requires AtMost(w, m)
    ensures AtMost(Half(w), Half(m)) && (Fits(m, 0) ==> Fits(w, 0))
  {
  }

  lemma FitsNext(w: bv32, n: nat)
    ensures Fits(w, n + 1) == Fits(Half(w), n)
  {
  }

  lemma {:induction false} FitsBelow(w: bv32, m: bv32, n: nat)
    requires AtMost(w, m) && Fits(m, n)
    ensures Fits(w, n)
    decreases n
  {
    hide Half, AtMost, Fits;
    HalfOrder(w, m);
    if n > 0 {
      FitsNext(w, n - 1);
      FitsNext(m, n - 1);
      FitsBelow(Half(w), Half(m), n - 1);
    }
  }

  lemma {:induction false} TopDigit(w: bv32, n: nat)
    requires Fits(w, n)
    ensures Digits(w, n + 1) == Digits(w, n)
    decreases n
  {
    hide Low, Half, Fits, Digits;
    if n == 0 {
      ZeroDigits(w);
    } else {
      FitsNext(w, n - 1);
      DigitsNext(w, n - 1);
      DigitsNext(w, n);
      TopDigit(Half(w), n - 1);
    }
  }

  lemma ZeroDigits(w: bv32)
    requires Fits(w, 0)
    ensures Digits(w, 1) == Digits(w, 0) == 0
  {
    assert !Low(0);
  }

  lemma HalfFits(w: bv32)
    ensures Fits(Half(w), 31)
  {
    assert AtMost(Half(w), 0x7fff_ffff);
    assert Fits(0x7f, 7);
    assert Fits(0x7fff, 15);
    assert Fits(0x7f_ffff, 23);
    FitsBelow(Half(w), 0x7fff_ffff, 31);
  }

  lemma NumberBits(w: bv32)
    ensures Number(w) / 2 == Number(Half(w))
    ensures Number(w) % 2 == if Low(w) then 1 else 0
  {
    hide Low, Half, Fits, Digits;
    DigitsNext(w, 31);
    HalfFits(w);
    TopDigit(Half(w), 31);
  }

  function Nibble(w: bv32): nat {
    (if w & 1 == 1 then 1 else 0) + (if w & 2 == 2 then 2 else 0)
    + (if w & 4 == 4 then 4 else 0) + (if w & 8 == 8 then 8 else 0)
  }

  function Rest(w: bv32): bv32 { w >> 4 }

  lemma NibbleBits(w: bv32)
    ensures Rest(w) == Half(Half(Half(Half(w))))
    ensures Nibble(w) == (if Low(w) then 1 else 0) + (if Low(Half(w)) then 2 else 0)
                         + (if Low(Half(Half(w))) then 4 else 0) + (if Low(Half(Half(Half(w)))) then 8 else 0)
  {
  }

  lemma FourDigits(w: bv32, n: nat)
    ensures Digits(w, n + 4) == Nibble(w) + 16 * Digits(Rest(w), n)
  {
    hide Digits, Low, Half, Rest, Nibble;
    NibbleBits(w);
    DigitsNext(w, n + 3);
    DigitsNext(Half(w), n + 2);
    DigitsNext(Half(Half(w)), n + 1);
    DigitsNext(Half(Half(Half(w))), n);
  }

  /** A word's number from its hexadecimal digits. */
  lemma NumberInHex(w0: bv32)
    ensures var w1 := Rest(w0); var w2 := Rest(w1); var w3 := Rest(w2);
      var w4 := Rest(w3); var w5 := Rest(w4); var w6 := Rest(w5); var w7 := Rest(w6);
      Number(w0) == Nibble(w0) + 0x10 * Nibble(w1) + 0x100 * Nibble(w2) + 0x1000 * Nibble(w3)
        + 0x1_0000 * Nibble(w4) + 0x10_0000 * Nibble(w5) + 0x100_0000 * Nibble(w6) + 0x1000_0000 * Nibble(w7)
  {
    hide Digits, Rest, Nibble;
    var w1 := Rest(w0);
    var w2 := Rest(w1);
    var w3 := Rest(w2);
    var w4 := Rest(w3);
    var w5 := Rest(w4);
    var w6 := Rest(w5);
    var w7 := Rest(w6);
    FourDigits(w0, 28);
    FourDigits(w1, 24);
    FourDigits(w2, 20);
    FourDigits(w3, 16);
    FourDigits(w4, 12);
    FourDigits(w5, 8);
    FourDigits(w6, 4);
    FourDigits(w7, 0);
    DigitsNone(Rest(w7));
  }

  lemma NumberOfPoly()
    ensures Number(0xedb88320) == POLY
  {
    hide Digits, Number;
    NumberInHex(0xedb88320);
  }

  /** A round on words is a step of the register. */
  lemma RoundIsStep(c: bv32)
    ensures Number(Round(c)) == Step(Number(c))
  {
    RoundSum(c);
    hide Xor, Low, Half, Sum, Round, Digits;
    NumberBits(c);
    NumberOfPoly();
    DigitsSum(0xedb88320, Half(c), 32);
  }

  lemma RoundSum(c: bv32)
    ensures Round(c) == if Low(c) then Sum(0xedb88320, Half(c)) else Half(c)
  {
  }

  // ----- Which CRC this is -----

  /** Feeding a byte to the machine's register is feeding it to the reference. */
  lemma FeedIsRegister(c: bv32, b: bv32, crc: Word, buf: seq<Byte>, i: nat)
    requires i < |buf| && Number(c) == Register(crc, buf[..i]) && Number(b) == buf[i]
    ensures Number(Feed(c, b)) == Register(crc, buf[..i + 1])
  {
    hide Xor, Register, Round, Number;
    RegisterNext(crc, buf, i);
    RegisterOfByte(Register(crc, buf[..i]), buf[i]);
    NumberSum(c, b);
    EightRounds(c ^ b);
  }

  lemma NumberSum(a: bv32, b: bv32)
    ensures Number(a ^ b) == Xor(Number(a), Number(b))
  {
    hide Digits, Xor;
    DigitsSum(a, b, 32);
    assert Sum(a, b) == a ^ b;
  }

  lemma EightRounds(c: bv32)
    ensures Number(Round(Round(Round(Round(Round(Round(Round(Round(c))))))))) == Steps(8, Number(c))
  {
    hide Round, Number, Step, Steps;
    var c1 := Round(c);
    var c2 := Round(c1);
    var c3 := Round(c2);
    var c4 := Round(c3);
    var c5 := Round(c4);
    var c6 := Round(c5);
    var c7 := Round(c6);
    var c8 := Round(c7);
    RoundStep(c, 7);
    RoundStep(c1, 6);
    RoundStep(c2, 5);
    RoundStep(c3, 4);
    RoundStep(c4, 3);
    RoundStep(c5, 2);
    RoundStep(c6, 1);
    RoundStep(c7, 0);
    StepsNext(0, Number(c8));
  }

  lemma RoundStep(c: bv32, n: nat)
    ensures Steps(n + 1, Number(c)) == Steps(n, Number(Round(c)))
  {
    hide Round, Number, Step, Steps;
    RoundIsStep(c);
    StepsNext(n, Number(c));
  }

  /** The bytes of "123456789". */
  const CHECK: seq<Byte> := [0x31, 0x32, 0x33, 0x34, 0x35, 0x36, 0x37, 0x38, 0x39]

  lemma CheckOnWords()
    ensures var a := Feed(Feed(Feed(0xffff_ffff, 0x31), 0x32), 0x33);
      Feed(Feed(Feed(Feed(Feed(Feed(a, 0x34), 0x35), 0x36), 0x37), 0x38), 0x39) == 0x340b_c6d9
  {
    assert Feed(Feed(Feed(0xffff_ffff, 0x31), 0x32), 0x33) == 0x77b7_9c2d;
    assert Feed(Feed(Feed(0x77b7_9c2d, 0x34), 0x35), 0x36) == 0xf68d_2c9e;
  }

  lemma CheckBytes()
    ensures Number(0x31) == 0x31 && Number(0x32) == 0x32 && Number(0x33) == 0x33
    ensures Number(0x34) == 0x34 && Number(0x35) == 0x35 && Number(0x36) == 0x36
    ensures Number(0x37) == 0x37 && Number(0x38) == 0x38 && Number(0x39) == 0x39
    ensures Number(0xffff_ffff) == ONES && Number(0x340b_c6d9) == 0x340b_c6d9
  {
    hide Digits, Number;
    NumberInHex(0x31);
    NumberInHex(0x32);
    NumberInHex(0x33);
    NumberInHex(0x34);
    NumberInHex(0x35);
    NumberInHex(0x36);
    NumberInHex(0x37);
    NumberInHex(0x38);
    NumberInHex(0x39);
    NumberInHex(0xffff_ffff);
    NumberInHex(0x340b_c6d9);
  }

  /** The published check value of CRC-32: what `lut_crc32` from 0 and `crc32_get` return for the
      nine bytes of "123456789". */
  lemma CheckValue()
    ensures Lut(0, CHECK) == 0xcbf4_3926 && Not(Register(ONES, CHECK)) == 0xcbf4_3926
  {
    hide Register, Feed, Number;
    CheckBytes();
    CheckOnWords();
    var c0: bv32 := 0xffff_ffff;
    var c1 := Feed(c0, 0x31);
    var c2 := Feed(c1, 0x32);
    var c3 := Feed(c2, 0x33);
    var c4 := Feed(c3, 0x34);
    var c5 := Feed(c4, 0x35);
    var c6 := Feed(c5, 0x36);
    var c7 := Feed(c6, 0x37);
    var c8 := Feed(c7, 0x38);
    RegisterEmpty(ONES);
    FeedIsRegister(c0, 0x31, ONES, CHECK, 0);
    FeedIsRegister(c1, 0x32, ONES, CHECK, 1);
    FeedIsRegister(c2, 0x33, ONES, CHECK, 2);
    FeedIsRegister(c3, 0x34, ONES, CHECK, 3);
    FeedIsRegister(c4, 0x35, ONES, CHECK, 4);
    FeedIsRegister(c5, 0x36, ONES, CHECK, 5);
    FeedIsRegister(c6, 0x37, ONES, CHECK, 6);
    FeedIsRegister(c7, 0x38, ONES, CHECK, 7);
    FeedIsRegister(c8, 0x39, ONES, CHECK, 8);
    assert CHECK[..9] == CHECK;
  }
}
