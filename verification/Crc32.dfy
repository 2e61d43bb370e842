/** CRC-32 as the radio soak test and the bulk stream test compute it: bit by bit, reflected, with
    the FCS polynomial of section 3.2.9 of IEEE 802.3. The register is a 32-bit word; the lemmas
    about single steps look at its bits, all others reason over these named operations. */
module Crc32 {

  type octet = bv8
  type octets = seq<bv8>

  const POLY: bv32 := 0xEDB8_8320
  const INIT: bv32 := 0xFFFF_FFFF

  function Xor(a: bv32, b: bv32): bv32 { a ^ b }
  function Widen(b: octet): bv32 { b as bv32 }
  function Not(a: bv32): bv32 { !a }
  function Up(a: bv32): bv32 { a << 8 }
  function Half(a: bv32): bv32 { a >> 1 }
  function Low(a: bv32): bv32 { a & 1 }

  /** `POLY & m`, with `m` the low bit spread over the word by a wrapping negation. */
  function Feedback(low: bv32): bv32 {
    0xEDB8_8320 & (0 - low)
  }

  /** One turn of the inner loop. */
  function BitStep(crc: bv32): bv32 {
    Xor(Half(crc), Feedback(Low(crc)))
  }

  function Bits(crc: bv32, n: nat): bv32
    decreases n
  {
    if n == 0 then crc else Bits(BitStep(crc), n - 1)
  }

  function ByteStep(crc: bv32, b: octet): bv32 {
    Bits(Xor(crc, Widen(b)), 8)
  }

  function Absorb(crc: bv32, data: octets): bv32
    decreases |data|
  {
    if data == [] then crc else Absorb(ByteStep(crc, data[0]), data[1..])
  }

  function Crc(data: octets): bv32 {
    Not(Absorb(INIT, data))
  }

  // ---- the algebra of words ---------------------------------------------------------

  lemma XorGroup(a: bv32, b: bv32, c: bv32)
    ensures Xor(Xor(a, b), c) == Xor(a, Xor(b, c))
    ensures Xor(a, b) == Xor(b, a)
    ensures Xor(a, a) == 0 && Xor(a, 0) == a
  {
  }

  lemma XorExchange(a: bv32, b: bv32, c: bv32, d: bv32)
    ensures Xor(Xor(a, b), Xor(c, d)) == Xor(Xor(a, c), Xor(b, d))
  {
    hide Xor;
    XorGroup(a, b, Xor(c, d));
    XorGroup(b, c, d);
    XorGroup(c, b, d);
    XorGroup(a, c, Xor(b, d));
  }

  lemma XorCancels(x: bv32, y: bv32, b: bv32)
    requires Xor(x, b) == Xor(y, b)
    ensures x == y
  {
  }

  lemma NotInjective(x: bv32, y: bv32)
    requires Not(x) == Not(y)
    ensures x == y
  {
  }

  // ---- the polynomial --------------------------------------------------------------

  /** The word with its bits in the opposite order. */
  function Mirror(w: bv32): bv32 {
    var a := (w >> 16) | (w << 16);
    var b := ((a & 0xFF00_FF00) >> 8) | ((a & 0x00FF_00FF) << 8);
    var c := ((b & 0xF0F0_F0F0) >> 4) | ((b & 0x0F0F_0F0F) << 4);
    var d := ((c & 0xCCCC_CCCC) >> 2) | ((c & 0x3333_3333) << 2);
    ((d & 0xAAAA_AAAA) >> 1) | ((d & 0x5555_5555) << 1)
  }

  /** The constant is the reflected form of x^32 + x^26 + x^23 + x^22 + x^16 + x^12 + x^11 + x^10 +
      x^8 + x^7 + x^5 + x^4 + x^2 + x + 1. */
  lemma PolynomialIsIeee8023()
    ensures Mirror(POLY) == 0x04C1_1DB7
  {
  }

  // ---- every step is a bijection ---------------------------------------------------

  lemma FeedbackValues(crc: bv32)
    ensures Low(crc) == 0 || Low(crc) == 1
    ensures Feedback(0) == 0 && Feedback(1) == POLY
  {
  }

  /** The step read backwards: the top bit of the result tells whether POLY was added. */
  function UnbitStep(crc: bv32): bv32 {
    if crc & 0x8000_0000 != 0 then ((crc ^ 0xEDB8_8320) << 1) | 1 else crc << 1
  }

  lemma StepThenBack(crc: bv32)
    ensures UnbitStep(BitStep(crc)) == crc
  {
  }

  lemma BackThenStep(crc: bv32)
    ensures BitStep(UnbitStep(crc)) == crc
  {
    FeedbackValues(0);
    if crc & 0x8000_0000 != 0 {
      TopBitOff(crc);
      OddWord(crc ^ 0xEDB8_8320);
      assert Xor(crc ^ 0xEDB8_8320, POLY) == crc;
    } else {
      EvenWord(crc);
      XorGroup(crc, 0, 0);
    }
  }

  lemma TopBitOff(v: bv32)
    requires v & 0x8000_0000 != 0
    ensures (v ^ 0xEDB8_8320) & 0x8000_0000 == 0
  {
  }

  lemma OddWord(v: bv32)
    requires v & 0x8000_0000 == 0
    ensures Low((v << 1) | 1) == 1 && Half((v << 1) | 1) == v
  {
  }

  lemma EvenWord(v: bv32)
    requires v & 0x8000_0000 == 0
    ensures Low(v << 1) == 0 && Half(v << 1) == v
  {
  }

  lemma {:induction false} BitsInjective(x: bv32, y: bv32, n: nat)
    requires Bits(x, n) == Bits(y, n)
    ensures x == y
    decreases n
  {
    hide BitStep, UnbitStep;
    if n > 0 {
      BitsInjective(BitStep(x), BitStep(y), n - 1);
      StepThenBack(x);
      StepThenBack(y);
    }
  }

  /** Different states stay different whatever follows. */
  lemma {:induction false} AbsorbInjective(x: bv32, y: bv32, data: octets)
    requires Absorb(x, data) == Absorb(y, data)
    ensures x == y
    decreases |data|
  {
    hide Xor, Widen, Bits;
    if data != [] {
      AbsorbInjective(ByteStep(x, data[0]), ByteStep(y, data[0]), data[1..]);
      BitsInjective(Xor(x, Widen(data[0])), Xor(y, Widen(data[0])), 8);
      XorCancels(x, y, Widen(data[0]));
    }
  }

  // ---- linearity -------------------------------------------------------------------

  lemma HalfLinear(x: bv32, y: bv32)
    ensures Half(Xor(x, y)) == Xor(Half(x), Half(y))
  {
  }

  lemma LowLinear(x: bv32, y: bv32)
    ensures Low(Xor(x, y)) == Xor(Low(x), Low(y))
  {
  }

  lemma FeedbackLinear(p: bv32, q: bv32)
    requires p == 0 || p == 1
    requires q == 0 || q == 1
    ensures Feedback(Xor(p, q)) == Xor(Feedback(p), Feedback(q))
  {
    FeedbackValues(0);
    if p == 0 {
      if q == 0 {} else {}
    } else {
      if q == 0 {} else {}
    }
  }

  lemma BitStepLinear(x: bv32, y: bv32)
    ensures BitStep(Xor(x, y)) == Xor(BitStep(x), BitStep(y))
  {
    hide Xor, Feedback, Half, Low;
    HalfLinear(x, y);
    LowLinear(x, y);
    FeedbackValues(x);
    FeedbackValues(y);
    FeedbackLinear(Low(x), Low(y));
    XorExchange(Half(x), Half(y), Feedback(Low(x)), Feedback(Low(y)));
  }

  lemma {:induction false} BitsLinear(x: bv32, y: bv32, n: nat)
    ensures Bits(Xor(x, y), n) == Xor(Bits(x, n), Bits(y, n))
    decreases n
  {
    hide Xor, BitStep;
    if n > 0 {
      BitStepLinear(x, y);
      BitsLinear(BitStep(x), BitStep(y), n - 1);
    }
  }

  /** Two messages added byte by byte. */
  function Add(a: octets, b: octets): (c: octets)
    requires |a| == |b|
    ensures |c| == |a|
    decreases |a|
  {
    if a == [] then [] else [a[0] ^ b[0]] + Add(a[1..], b[1..])
  }

  lemma WidenXor(a: octet, b: octet)
    ensures Widen(a ^ b) == Xor(Widen(a), Widen(b))
  {
  }

  lemma {:induction false} AbsorbLinear(x: bv32, y: bv32, a: octets, b: octets)
    requires |a| == |b|
    ensures Absorb(Xor(x, y), Add(a, b)) == Xor(Absorb(x, a), Absorb(y, b))
    decreases |a|
  {
    hide Xor, Widen, Bits;
    if a != [] {
      var p, q := Widen(a[0]), Widen(b[0]);
      WidenXor(a[0], b[0]);
      XorExchange(x, y, p, q);
      BitsLinear(Xor(x, p), Xor(y, q), 8);
      AbsorbLinear(ByteStep(x, a[0]), ByteStep(y, b[0]), a[1..], b[1..]);
    }
  }

  /** Whether a corruption goes unnoticed depends on the corruption alone, not on the message. */
  lemma UndetectedIffSyndromeZero(message: octets, error: octets)
    requires |message| == |error|
    ensures Crc(Add(message, error)) == Crc(message) <==> Absorb(0, error) == 0
  {
    hide Xor, Absorb, Not, Add;
    var m, e := Absorb(INIT, message), Absorb(0, error);
    XorGroup(INIT, 0, 0);
    AbsorbLinear(INIT, 0, message, error);
    XorGroup(m, 0, 0);
    if Crc(Add(message, error)) == Crc(message) {
      NotInjective(Xor(m, e), m);
      XorGroup(m, e, 0);
      XorGroup(e, m, 0);
      XorGroup(0, m, 0);
      XorCancels(e, 0, m);
    }
  }

  // ---- burst detection -------------------------------------------------------------

  /** A word with a clear low bit meets no feedback. */
  lemma EvenStep(w: bv32)
    requires Low(w) == 0
    ensures BitStep(w) == Half(w)
  {
  }

  lemma {:induction false} EvenSteps(w: bv32, n: nat)
    requires Even(w, n)
    ensures Bits(w, n) == Down(w, n)
    decreases n
  {
    hide Half, Low, BitStep;
    if n > 0 {
      EvenStep(w);
      EvenSteps(Half(w), n - 1);
    }
  }

  /** The low `n` bits of `w` are clear. */
  predicate Even(w: bv32, n: nat)
    decreases n
  {
    n == 0 || (Low(w) == 0 && Even(Half(w), n - 1))
  }

  function Down(w: bv32, n: nat): bv32
    decreases n
  {
    if n == 0 then w else Down(Half(w), n - 1)
  }

  lemma EvenDown(w: bv32, v: bv32, n: nat)
    requires n > 0 && Low(w) == 0 && Half(w) == v
    ensures Even(w, n) == Even(v, n - 1) && Down(w, n) == Down(v, n - 1)
  {
  }

  lemma LastDown(w: bv32)
    ensures Even(w, 0) && Down(w, 0) == w
  {
  }

  /** Doubling a word whose top bit is free is undone by one step; `room` bounds the word. */
  lemma Doubled(w: bv32, room: bv32, n: nat)
    requires w <= room && room < 0x8000_0000
    ensures Twice(w) <= Twice(room) + 1
    ensures Even(Twice(w), n + 1) == Even(w, n) && Down(Twice(w), n + 1) == Down(w, n)
  {
    DoubledBits(w, room);
    EvenDown(Twice(w), w, n + 1);
  }

  lemma DoubledBits(w: bv32, room: bv32)
    requires w <= room && room < 0x8000_0000
    ensures Twice(w) <= Twice(room) + 1
    ensures Low(Twice(w)) == 0 && Half(Twice(w)) == w
  {
  }

  function Twice(w: bv32): bv32 { w << 1 }

  /** Eight steps move the upper bytes down by one byte: they meet no feedback on the way. */
  lemma ShiftedByte(h: bv32)
    requires h & 0xFF00_0000 == 0
    ensures Bits(Up(h), 8) == h
  {
    var a, b, c := Twice(h), Twice(Twice(h)), Twice(Twice(Twice(h)));
    UpIsEightDoublings(h);
    hide *;
    LastDown(h);
    Doubled(h, 0x00FF_FFFF, 0);
    Doubled(a, 0x01FF_FFFF, 1);
    Doubled(b, 0x03FF_FFFF, 2);
    Doubled(c, 0x07FF_FFFF, 3);
    Doubled(Twice(c), 0x0FFF_FFFF, 4);
    Doubled(Twice(Twice(c)), 0x1FFF_FFFF, 5);
    Doubled(Twice(Twice(Twice(c))), 0x3FFF_FFFF, 6);
    Doubled(Twice(Twice(Twice(Twice(c)))), 0x7FFF_FFFF, 7);
    EvenSteps(Up(h), 8);
  }

  lemma UpIsEightDoublings(h: bv32)
    requires h & 0xFF00_0000 == 0
    ensures Up(h) == Twice(Twice(Twice(Twice(Twice(Twice(Twice(Twice(h))))))))
    ensures h <= 0x00FF_FFFF
    ensures Twice(0x00FF_FFFF) + 1 == 0x01FF_FFFF && Twice(0x01FF_FFFF) + 1 == 0x03FF_FFFF
    ensures Twice(0x03FF_FFFF) + 1 == 0x07FF_FFFF && Twice(0x07FF_FFFF) + 1 == 0x0FFF_FFFF
    ensures Twice(0x0FFF_FFFF) + 1 == 0x1FFF_FFFF && Twice(0x1FFF_FFFF) + 1 == 0x3FFF_FFFF
    ensures Twice(0x3FFF_FFFF) + 1 == 0x7FFF_FFFF
  {
  }

  /** Up to four bytes as the register sees them, the first one lowest. */
  function Word(e: octets): bv32
    decreases |e|
  {
    if e == [] then 0 else Xor(Widen(e[0]), Up(Word(e[1..])))
  }

  lemma WordStep(b: octet, w: bv32)
    ensures w == 0 ==> Xor(Widen(b), Up(w)) & 0xFFFF_FF00 == 0
    ensures w & 0xFFFF_FF00 == 0 ==> Xor(Widen(b), Up(w)) & 0xFFFF_0000 == 0
    ensures w & 0xFFFF_0000 == 0 ==> Xor(Widen(b), Up(w)) & 0xFF00_0000 == 0
  {
  }

  lemma FewerBits(w: bv32)
    ensures w == 0 ==> w & 0xFFFF_FF00 == 0
    ensures w & 0xFFFF_FF00 == 0 ==> w & 0xFFFF_0000 == 0
    ensures w & 0xFFFF_0000 == 0 ==> w & 0xFF00_0000 == 0
  {
  }

  /** A word of up to three bytes leaves the other bytes clear. */
  lemma {:induction false} WordFits(e: octets)
    requires |e| <= 3
    ensures |e| == 0 ==> Word(e) == 0
    ensures |e| <= 1 ==> Word(e) & 0xFFFF_FF00 == 0
    ensures |e| <= 2 ==> Word(e) & 0xFFFF_0000 == 0
    ensures Word(e) & 0xFF00_0000 == 0
    decreases |e|
  {
    hide Xor, Widen, Up;
    if e != [] {
      WordFits(e[1..]);
      WordStep(e[0], Word(e[1..]));
    }
    FewerBits(Word(e));
  }

  lemma {:induction false} BitsAdd(x: bv32, m: nat, n: nat)
    ensures Bits(x, m + n) == Bits(Bits(x, m), n)
    decreases m
  {
    hide BitStep;
    if m > 0 {
      BitsAdd(BitStep(x), m - 1, n);
    }
  }

  /** Absorbing up to four bytes is adding them as one word and stepping through all the bits. */
  lemma {:induction false} AbsorbWord(x: bv32, e: octets)
    requires |e| <= 4
    ensures Absorb(x, e) == Bits(Xor(x, Word(e)), 8 * |e|)
    decreases |e|
  {
    hide Xor, Widen, Up, BitStep;
    if e == [] {
      XorGroup(x, 0, 0);
    } else {
      hide Bits;
      var b, w := Widen(e[0]), Word(e[1..]);
      WordFits(e[1..]);
      AbsorbWord(ByteStep(x, e[0]), e[1..]);
      XorGroup(x, b, Up(w));
      BitsLinear(Xor(x, b), Up(w), 8);
      ShiftedByte(w);
      BitsAdd(Xor(Xor(x, b), Up(w)), 8, 8 * |e[1..]|);
    }
  }

  lemma SplitWord(b: octet, w: bv32, c: octet, v: bv32)
    requires w & 0xFF00_0000 == 0 && v & 0xFF00_0000 == 0
    requires Xor(Widen(b), Up(w)) == Xor(Widen(c), Up(v))
    ensures b == c && w == v
  {
  }

  lemma {:induction false} WordInjective(x: octets, y: octets)
    requires |x| == |y| <= 4 && Word(x) == Word(y)
    ensures x == y
    decreases |x|
  {
    hide Xor, Widen, Up;
    if x != [] {
      WordFits(x[1..]);
      WordFits(y[1..]);
      SplitWord(x[0], Word(x[1..]), y[0], Word(y[1..]));
      WordInjective(x[1..], y[1..]);
      assert x == [x[0]] + x[1..] && y == [y[0]] + y[1..];
    }
  }

  lemma {:induction false} AbsorbConcat(x: bv32, a: octets, b: octets)
    ensures Absorb(x, a + b) == Absorb(Absorb(x, a), b)
    decreases |a|
  {
    hide ByteStep;
    if a == [] {
      assert a + b == b;
    } else {
      AbsorbConcat(ByteStep(x, a[0]), a[1..], b);
      assert (a + b)[1..] == a[1..] + b;
    }
  }

  /** Two messages of equal length that differ, but only within four consecutive bytes, never share
      a CRC. */
  lemma BurstDetected(a: octets, b: octets, at: nat, n: nat)
    requires |a| == |b| && n <= 4 && at + n <= |a|
    requires a[..at] == b[..at] && a[at + n..] == b[at + n..]
    requires a != b
    ensures Crc(a) != Crc(b)
  {
    hide Absorb, Bits, Word, Xor, Not;
    if Crc(a) == Crc(b) {
      NotInjective(Absorb(INIT, a), Absorb(INIT, b));
      var p, s := a[..at], a[at + n..];
      var x, y := a[at..at + n], b[at..at + n];
      assert a == p + (x + s) && b == p + (y + s);
      var start := Absorb(INIT, p);
      AbsorbConcat(INIT, p, x + s);
      AbsorbConcat(INIT, p, y + s);
      AbsorbConcat(start, x, s);
      AbsorbConcat(start, y, s);
      AbsorbInjective(Absorb(start, x), Absorb(start, y), s);
      AbsorbWord(start, x);
      AbsorbWord(start, y);
      BitsInjective(Xor(start, Word(x)), Xor(start, Word(y)), 8 * n);
      XorGroup(start, Word(x), 0);
      XorGroup(start, Word(y), 0);
      XorCancels(Word(x), Word(y), start);
      WordInjective(x, y);
    }
  }

}
