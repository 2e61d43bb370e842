/** CRC-32 as section 3.2.9 of IEEE 802.3 defines it: polynomials over the two-element field, as lists
    of coefficients with the highest power first, and their long division. The programs' bit loops
    compute exactly this. */
module CrcDefinition {
  import opened Crc32

  type bits = seq<bool>

  // ---- the definition ----------------------------------------------------------------------

  /** An octet in the order of transmission, lowest bit first. */
  function Octet(b: octet): (r: bits)
    ensures |r| == 8
  {
    [b & 1 != 0, b & 2 != 0, b & 4 != 0, b & 8 != 0, b & 16 != 0, b & 32 != 0, b & 64 != 0, b & 128 != 0]
  }

  function Message(data: octets): (r: bits)
    ensures |r| == 8 * |data|
  {
    if data == [] then [] else Octet(data[0]) + Message(data[1..])
  }

  function Zeros(n: nat): (r: bits)
    ensures |r| == n && forall i :: 0 <= i < n ==> !r[i]
  {
    seq(n, i => false)
  }

  function Flip(p: bits): (r: bits)
    ensures |r| == |p| && forall i :: 0 <= i < |p| ==> r[i] == !p[i]
  {
    seq(|p|, i requires 0 <= i < |p| => !p[i])
  }

  /** `p` with `d` added to its first coefficients. */
  function PlusFront(p: bits, d: bits): (r: bits)
    requires |d| <= |p|
    ensures |r| == |p| && forall i :: 0 <= i < |p| ==> r[i] == if i < |d| then p[i] != d[i] else p[i]
  {
    seq(|p|, i requires 0 <= i < |p| => if i < |d| then p[i] != d[i] else p[i])
  }

  /** The generator's powers below x^32. */
  const POWERS := {26, 23, 22, 16, 12, 11, 10, 8, 7, 5, 4, 2, 1, 0}

  /** ... as coefficients of x^31 down to x^0. */
  function Taps(): (r: bits)
    ensures |r| == 32
  {
    seq(32, i => 31 - i in POWERS)
  }

  /** Long division by the generator: while the power is 32 or more, the leading term is subtracted. */
  function Remainder(p: bits): (r: bits)
    requires |p| >= 32
    ensures |r| == 32
    decreases |p|
  {
    if |p| == 32 then p
    else if p[0] then Remainder(PlusFront(p[1..], Taps()))
    else Remainder(p[1..])
  }

  /** `q` times the generator plus `r`. */
  function Product(q: bits, r: bits): (p: bits)
    requires |r| == 32
    ensures |p| == |q| + 32
  {
    if q == [] then r
    else [q[0]] + (if q[0] then PlusFront(Product(q[1..], r), Taps()) else Product(q[1..], r))
  }

  /** A word from its bits, the lowest first. */
  function Word32(p: bits): bv32 {
    if p == [] then 0 else Xor(if p[0] then 1 else 0, Twice(Word32(p[1..])))
  }

  /** The check sequence: the first 32 bits of the message, taken with 32 zeros behind it, are
      complemented; the remainder is complemented; its highest power goes out first. */
  function Fcs(data: octets): bv32 {
    var p := Message(data) + Zeros(32);
    Word32(Flip(Remainder(Flip(p[..32]) + p[32..])))
  }

  // ---- the remainder is the remainder --------------------------------------------------------

  lemma PlusTwice(p: bits, d: bits)
    requires |d| <= |p|
    ensures PlusFront(PlusFront(p, d), d) == p
  {
  }

  /** Every polynomial is a multiple of the generator plus its remainder ... */
  lemma {:induction false} RemainderIsLeft(p: bits) returns (q: bits)
    requires |p| >= 32
    ensures Product(q, Remainder(p)) == p
    decreases |p|
  {
    hide Taps;
    if |p| == 32 {
      q := [];
    } else {
      var rest := if p[0] then PlusFront(p[1..], Taps()) else p[1..];
      var more := RemainderIsLeft(rest);
      q := [p[0]] + more;
      assert q[1..] == more;
      PlusTwice(p[1..], Taps());
      assert p == [p[0]] + p[1..];
    }
  }

  /** ... and in one way only. */
  lemma {:induction false} RemainderIsUnique(p: bits, q: bits, r: bits)
    requires |r| == 32 && Product(q, r) == p
    ensures |p| >= 32 && Remainder(p) == r
    decreases |q|
  {
    hide Taps;
    if q != [] {
      var inner := Product(q[1..], r);
      RemainderIsUnique(inner, q[1..], r);
      PlusTwice(inner, Taps());
      assert p[1..] == if q[0] then PlusFront(inner, Taps()) else inner;
    }
  }

  // ---- words as bits ----------------------------------------------------------------------------

  function BitsOf(w: bv32, n: nat): (r: bits)
    ensures |r| == n
  {
    if n == 0 then [] else [Low(w) == 1] + BitsOf(Half(w), n - 1)
  }

  lemma BitsOfFirst(w: bv32, n: nat)
    requires n > 0
    ensures BitsOf(w, n) == [Low(w) == 1] + BitsOf(Half(w), n - 1)
  {
  }

  lemma LowAdds(x: bv32, y: bv32)
    ensures (Low(Xor(x, y)) == 1) == ((Low(x) == 1) != (Low(y) == 1))
    ensures Low(x) == 0 || Low(x) == 1
  {
  }

  lemma {:induction false} BitsOfXor(x: bv32, y: bv32, n: nat)
    ensures BitsOf(Xor(x, y), n) == PlusFront(BitsOf(x, n), BitsOf(y, n))
    decreases n
  {
    hide Xor, Low, Half;
    if n > 0 {
      hide PlusFront, BitsOf;
      LowAdds(x, y);
      HalfLinear(x, y);
      BitsOfXor(Half(x), Half(y), n - 1);
      BitsOfFirst(x, n);
      BitsOfFirst(y, n);
      BitsOfFirst(Xor(x, y), n);
      PlusCons(Low(x) == 1, BitsOf(Half(x), n - 1), Low(y) == 1, BitsOf(Half(y), n - 1));
    } else {
      BitsOfNone(x);
      BitsOfNone(y);
      BitsOfNone(Xor(x, y));
      assert PlusFront([], []) == [];
    }
  }

  lemma PlusCons(a: bool, p: bits, b: bool, d: bits)
    requires |d| <= |p|
    ensures PlusFront([a] + p, [b] + d) == [a != b] + PlusFront(p, d)
  {
  }

  /** What is left of a word after `n` halvings. */
  lemma {:induction false} BitsOfSnoc(w: bv32, n: nat)
    ensures BitsOf(w, n + 1) == BitsOf(w, n) + [Low(Down(w, n)) == 1]
    decreases n
  {
    hide Low, Half;
    if n == 0 {
      assert BitsOf(Half(w), 0) == [];
    } else {
      BitsOfSnoc(Half(w), n - 1);
      BitsOfFirst(w, n + 1);
      BitsOfFirst(w, n);
    }
  }

  lemma DownFirst(w: bv32, n: nat)
    requires n > 0
    ensures Down(w, n) == Down(Half(w), n - 1)
  {
  }

  lemma {:induction false} DownAdd(w: bv32, m: nat, n: nat)
    ensures Down(w, m + n) == Down(Down(w, m), n)
    decreases m
  {
    hide Half;
    if m > 0 {
      DownAdd(Half(w), m - 1, n);
    }
  }

  function Half8(w: bv32): bv32 { w >> 8 }

  lemma EightHalves(w: bv32)
    ensures Half(Half(Half(Half(Half(Half(Half(Half(w)))))))) == Half8(w)
  {
  }

  lemma FourBytes(w: bv32)
    ensures Half8(Half8(Half8(Half8(w)))) == 0
  {
  }

  lemma DownEight(w: bv32)
    ensures Down(w, 8) == Half8(w)
  {
    hide *;
    EightHalves(w);
    var a := Half(w);
    var b := Half(a);
    var c := Half(b);
    var d := Half(c);
    var e := Half(d);
    var f := Half(e);
    var g := Half(f);
    DownFirst(w, 8);
    DownFirst(a, 7);
    DownFirst(b, 6);
    DownFirst(c, 5);
    DownFirst(d, 4);
    DownFirst(e, 3);
    DownFirst(f, 2);
    DownFirst(g, 1);
    LastDown(Half(g));
  }

  lemma NothingLeft(w: bv32)
    ensures Down(w, 32) == 0
  {
    hide *;
    DownEight(w);
    DownEight(Half8(w));
    DownEight(Half8(Half8(w)));
    DownEight(Half8(Half8(Half8(w))));
    DownAdd(w, 8, 24);
    DownAdd(Half8(w), 8, 16);
    DownAdd(Half8(Half8(w)), 8, 8);
    FourBytes(w);
  }

  lemma LowHigh(w: bv32)
    ensures Xor(if Low(w) == 1 then 1 else 0, Twice(Half(w))) == w
  {
  }

  lemma {:induction false} WordOfBits(w: bv32, n: nat)
    requires Down(w, n) == 0
    ensures Word32(BitsOf(w, n)) == w
    decreases n
  {
    hide Xor, Low, Half, Twice;
    if n > 0 {
      WordOfBits(Half(w), n - 1);
      LowHigh(w);
      assert BitsOf(w, n)[1..] == BitsOf(Half(w), n - 1);
    }
  }


  lemma BitsOfNone(w: bv32)
    ensures BitsOf(w, 0) == []
  {
  }


  // ---- the constants -------------------------------------------------------------------------

  /** The lowest four bits. */
  function LowFour(w: bv32): (r: bits)
    ensures |r| == 4
  {
    [w & 1 != 0, w & 2 != 0, w & 4 != 0, w & 8 != 0]
  }

  function Half4(w: bv32): bv32 { w >> 4 }

  lemma Bit0(w: bv32)
    ensures (w & 1 != 0) == (Low(w) == 1)
  {
  }

  lemma Bit1(w: bv32)
    ensures (w & 2 != 0) == (Low(Half(w)) == 1)
  {
  }

  lemma Bit2(w: bv32)
    ensures (w & 4 != 0) == (Low(Half(Half(w))) == 1)
  {
  }

  lemma Bit3(w: bv32)
    ensures (w & 8 != 0) == (Low(Half(Half(Half(w)))) == 1)
  {
  }

  lemma FourHalves(w: bv32)
    ensures Half(Half(Half(Half(w)))) == Half4(w)
  {
  }

  lemma FourBits(w: bv32, n: nat)
    ensures BitsOf(w, n + 4) == LowFour(w) + BitsOf(Half4(w), n)
  {
    hide BitsOf, Half, Low, Half4;
    Bit0(w);
    Bit1(w);
    Bit2(w);
    Bit3(w);
    FourHalves(w);
    BitsOfFirst(w, n + 4);
    BitsOfFirst(Half(w), n + 3);
    BitsOfFirst(Half(Half(w)), n + 2);
    BitsOfFirst(Half(Half(Half(w))), n + 1);
    hide LowFour;
  }

  /** A word, four bits at a time. */
  lemma EightFours(w: bv32)
    ensures BitsOf(w, 32) == LowFour(w) + (LowFour(Half4(w)) + (LowFour(Half4(Half4(w))) + (LowFour(Half4(Half4(Half4(w)))) + (LowFour(Half4(Half4(Half4(Half4(w))))) + (LowFour(Half4(Half4(Half4(Half4(Half4(w)))))) + (LowFour(Half4(Half4(Half4(Half4(Half4(Half4(w))))))) + (LowFour(Half4(Half4(Half4(Half4(Half4(Half4(Half4(w)))))))))))))))
  {
    hide BitsOf, LowFour, Half4;
    FourBits(w, 28);
    FourBits(Half4(w), 24);
    FourBits(Half4(Half4(w)), 20);
    FourBits(Half4(Half4(Half4(w))), 16);
    FourBits(Half4(Half4(Half4(Half4(w)))), 12);
    FourBits(Half4(Half4(Half4(Half4(Half4(w))))), 8);
    FourBits(Half4(Half4(Half4(Half4(Half4(Half4(w)))))), 4);
    FourBits(Half4(Half4(Half4(Half4(Half4(Half4(Half4(w))))))), 0);
    BitsOfNone(Half4(Half4(Half4(Half4(Half4(Half4(Half4(Half4(w)))))))));
    assert LowFour(Half4(Half4(Half4(Half4(Half4(Half4(Half4(w)))))))) + [] == LowFour(Half4(Half4(Half4(Half4(Half4(Half4(Half4(w))))))));
  }

  lemma PolyFours()
    ensures LowFour(POLY) == [false, false, false, false]
    ensures LowFour(Half4(POLY)) == [false, true, false, false]
    ensures LowFour(Half4(Half4(POLY))) == [true, true, false, false]
    ensures LowFour(Half4(Half4(Half4(POLY)))) == [false, false, false, true]
    ensures LowFour(Half4(Half4(Half4(Half4(POLY))))) == [false, false, false, true]
    ensures LowFour(Half4(Half4(Half4(Half4(Half4(POLY)))))) == [true, true, false, true]
    ensures LowFour(Half4(Half4(Half4(Half4(Half4(Half4(POLY))))))) == [true, false, true, true]
    ensures LowFour(Half4(Half4(Half4(Half4(Half4(Half4(Half4(POLY)))))))) == [false, true, true, true]
  {
  }

  /** The constant of the loops is the generator, its highest power lowest. */
  lemma PolyIsTaps()
    ensures BitsOf(POLY, 32) == Taps()
  {
    hide BitsOf, LowFour, Half4;
    EightFours(POLY);
    PolyFours();
  }

  lemma OnesFours()
    ensures forall i :: 0 <= i < 4 ==> LowFour(0xFFFF_FFFF)[i]
    ensures forall i :: 0 <= i < 4 ==> LowFour(Half4(0xFFFF_FFFF))[i]
    ensures forall i :: 0 <= i < 4 ==> LowFour(Half4(Half4(0xFFFF_FFFF)))[i]
    ensures forall i :: 0 <= i < 4 ==> LowFour(Half4(Half4(Half4(0xFFFF_FFFF))))[i]
    ensures forall i :: 0 <= i < 4 ==> LowFour(Half4(Half4(Half4(Half4(0xFFFF_FFFF)))))[i]
    ensures forall i :: 0 <= i < 4 ==> LowFour(Half4(Half4(Half4(Half4(Half4(0xFFFF_FFFF))))))[i]
    ensures forall i :: 0 <= i < 4 ==> LowFour(Half4(Half4(Half4(Half4(Half4(Half4(0xFFFF_FFFF)))))))[i]
    ensures forall i :: 0 <= i < 4 ==> LowFour(Half4(Half4(Half4(Half4(Half4(Half4(Half4(0xFFFF_FFFF))))))))[i]
  {
  }

  lemma InitIsOnes(i: nat)
    requires i < 32
    ensures BitsOf(0xFFFF_FFFF, 32)[i]
  {
    hide BitsOf, LowFour, Half4;
    EightFours(0xFFFF_FFFF);
    OnesFours();
  }

  // ---- the loops divide -------------------------------------------------------------------------

  function Bit(b: bool): bv32 { if b then 1 else 0 }

  /** The register after a run of message bits. */
  function Through(c: bv32, p: bits): bv32
    decreases |p|
  {
    if p == [] then c else Through(BitStep(Xor(c, Bit(p[0]))), p[1..])
  }

  /** The dividend when the register holds `c` and `p` is still to come. */
  function State(c: bv32, p: bits): (r: bits)
    ensures |r| == |p| + 32
  {
    PlusFront(p + Zeros(32), BitsOf(c, 32))
  }

  lemma BitAdds(c: bv32, b: bool)
    ensures Half(Xor(c, Bit(b))) == Half(c)
    ensures (Low(Xor(c, Bit(b))) == 1) == ((Low(c) == 1) != b)
    ensures BitStep(Xor(c, Bit(b))) == if (Low(c) == 1) != b then Xor(Half(c), POLY) else Half(c)
  {
    LowestBit(c);
    LowestBit(Xor(c, Bit(b)));
    FeedbackValues(Xor(c, Bit(b)));
    XorGroup(Half(c), 0, 0);
    XorGroup(c, 0, 0);
    hide Low, Half, Xor, Feedback;
  }

  lemma LowestBit(c: bv32)
    ensures Half(Xor(c, 1)) == Half(c) && (Low(Xor(c, 1)) == 1) == (Low(c) != 1) && (Low(c) == 0 || Low(c) == 1)
  {
  }

  lemma ShiftedState(c: bv32, p: bits)
    requires p != []
    ensures State(c, p) == [p[0] != (Low(c) == 1)] + State(Half(c), p[1..])
  {
    hide Low, Half, PlusFront, BitsOf, Zeros;
    BitsOfFirst(c, 32);
    BitsOfSnoc(Half(c), 31);
    DownFirst(c, 32);
    NothingLeft(c);
    assert Low(0) != 1 by { LowOfNothing(); }
    assert p + Zeros(32) == [p[0]] + (p[1..] + Zeros(32));
    PlusCons(p[0], p[1..] + Zeros(32), Low(c) == 1, BitsOf(Half(c), 31));
    PlusNothing(p[1..] + Zeros(32), BitsOf(Half(c), 31));
  }

  lemma LowOfNothing()
    ensures Low(0) == 0
  {
  }

  lemma PlusNothing(p: bits, d: bits)
    requires |d| < |p|
    ensures PlusFront(p, d + [false]) == PlusFront(p, d)
  {
  }

  lemma PlusPlus(p: bits, d: bits, e: bits)
    requires |d| == |e| <= |p|
    ensures PlusFront(PlusFront(p, d), e) == PlusFront(p, PlusFront(d, e))
  {
  }

  /** Feeding bits to the register is dividing. */
  lemma {:induction false} ThroughDivides(c: bv32, p: bits)
    ensures Remainder(State(c, p)) == BitsOf(Through(c, p), 32)
    decreases |p|
  {
    hide Low, Half, PlusFront, BitsOf, Zeros, BitStep, Taps, Xor, State;
    if p == [] {
      NothingToCome(c);
    } else {
      var h, rest := Half(c), p[1..];
      ShiftedState(c, p);
      BitAdds(c, p[0]);
      var next := BitStep(Xor(c, Bit(p[0])));
      ThroughDivides(next, rest);
      assert State(c, p)[1..] == State(h, rest);
      if p[0] != (Low(c) == 1) {
        Subtracted(h, rest);
      }
    }
  }

  lemma NothingToCome(c: bv32)
    ensures State(c, []) == BitsOf(c, 32)
  {
    hide BitsOf;
    assert [] + Zeros(32) == Zeros(32);
  }

  lemma Subtracted(h: bv32, p: bits)
    ensures PlusFront(State(h, p), Taps()) == State(Xor(h, POLY), p)
  {
    hide BitsOf, PlusFront, Taps, Xor;
    PolyIsTaps();
    BitsOfXor(h, POLY, 32);
    PlusPlus(p + Zeros(32), BitsOf(h, 32), Taps());
  }

  // ---- whole octets --------------------------------------------------------------------------------

  lemma EvenWordStep(h: bv32)
    ensures BitStep(Twice(Half(h))) == Half(h)
  {
  }

  lemma LowPart(w: bv32)
    ensures Xor(Bit(Low(w) == 1), Twice(Half(w))) == w
  {
  }

  /** The bits of a word one by one, or all at once before the steps. */
  lemma {:induction false} ThroughWord(c: bv32, w: bv32, n: nat, rest: bits)
    requires Down(w, n) == 0
    ensures Through(c, BitsOf(w, n) + rest) == Through(Bits(Xor(c, w), n), rest)
    decreases n
  {
    hide Xor, BitStep, Low, Half, Twice, Bit, BitsOf;
    if n == 0 {
      BitsOfNone(w);
      XorGroup(c, 0, 0);
      assert [] + rest == rest;
    } else {
      var b, h := Low(w) == 1, Half(w);
      BitsOfFirst(w, n);
      var more := BitsOf(h, n - 1) + rest;
      assert BitsOf(w, n) + rest == [b] + more && ([b] + more)[1..] == more;
      var x := Xor(c, Bit(b));
      ThroughWord(BitStep(x), h, n - 1, rest);
      LowPart(w);
      XorGroup(c, Bit(b), Twice(h));
      BitStepLinear(x, Twice(h));
      EvenWordStep(w);
    }
  }

  lemma OctetBits(b: octet)
    ensures Octet(b) == BitsOf(Widen(b), 8) && Down(Widen(b), 8) == 0
  {
    DownEight(Widen(b));
    OctetLow(b);
    hide BitsOf, Widen, Octet, LowFour, Half4, Half8;
    var w := Widen(b);
    FourBits(w, 4);
    FourBits(Half4(w), 0);
    BitsOfNone(Half4(Half4(w)));
    assert LowFour(Half4(w)) + [] == LowFour(Half4(w));
  }

  lemma OctetLow(b: octet)
    ensures Octet(b) == LowFour(Widen(b)) + LowFour(Half4(Widen(b))) && Half8(Widen(b)) == 0
  {
  }

  /** So absorbing a message is feeding its bits. */
  lemma {:induction false} ThroughMessage(c: bv32, data: octets)
    ensures Through(c, Message(data)) == Absorb(c, data)
    decreases |data|
  {
    hide Octet, BitsOf, Bits, Xor, Widen, BitStep;
    if data != [] {
      OctetBits(data[0]);
      ThroughWord(c, Widen(data[0]), 8, Message(data[1..]));
      ThroughMessage(ByteStep(c, data[0]), data[1..]);
    }
  }

  /** Starting from all ones complements the first 32 bits. */
  lemma FirstComplemented(p: bits)
    ensures State(INIT, p) == Flip((p + Zeros(32))[..32]) + (p + Zeros(32))[32..]
  {
    hide BitsOf;
    forall i | 0 <= i < 32 ensures BitsOf(INIT, 32)[i] {
      InitIsOnes(i);
    }
  }

  lemma Complemented(w: bv32)
    ensures Not(w) == Xor(w, 0xFFFF_FFFF)
  {
  }

  lemma BitsOfNot(w: bv32)
    ensures BitsOf(Not(w), 32) == Flip(BitsOf(w, 32))
  {
    hide BitsOf, Not, Xor;
    Complemented(w);
    BitsOfXor(w, 0xFFFF_FFFF, 32);
    forall i | 0 <= i < 32 ensures BitsOf(0xFFFF_FFFF, 32)[i] {
      InitIsOnes(i);
    }
  }

  /** What the bit loops compute is the check sequence of the standard, for every message. */
  lemma CrcIsFcs(data: octets)
    ensures Crc(data) == Fcs(data)
  {
    hide BitsOf, Not, Remainder, Absorb, State, Word32, Through, Down;
    var p := Message(data);
    var w := Absorb(INIT, data);
    ThroughDivides(INIT, p);
    ThroughMessage(INIT, data);
    FirstComplemented(p);
    BitsOfNot(w);
    NothingLeft(Not(w));
    WordOfBits(Not(w), 32);
  }

  // ---- consequences ------------------------------------------------------------------------------------

  /** The complemented start makes leading zeros count. */
  lemma LeadingZeroShows(data: octets)
    ensures Crc([0] + data) != Crc(data)
  {
    hide Absorb, Not, ByteStep;
    if Crc([0] + data) == Crc(data) {
      NotInjective(Absorb(INIT, [0] + data), Absorb(INIT, data));
      AbsorbFirst(INIT, 0, data);
      AbsorbInjective(ByteStep(INIT, 0), INIT, data);
      InitMoves();
    }
  }

  lemma AbsorbFirst(c: bv32, b: octet, data: octets)
    ensures Absorb(c, [b] + data) == Absorb(ByteStep(c, b), data)
  {
    hide ByteStep;
    assert ([b] + data)[1..] == data;
  }

  lemma OneBit(c: bv32, n: nat)
    requires n > 0
    ensures Bits(c, n) == Bits(BitStep(c), n - 1)
  {
  }

  /** A byte step told state by state. */
  lemma ByteIs(c: bv32, b: octet, x: bv32, x1: bv32, x2: bv32, x3: bv32, x4: bv32, x5: bv32, x6: bv32, x7: bv32, x8: bv32)
    requires Xor(c, Widen(b)) == x && BitStep(x) == x1 && BitStep(x1) == x2 && BitStep(x2) == x3 && BitStep(x3) == x4
    requires BitStep(x4) == x5 && BitStep(x5) == x6 && BitStep(x6) == x7 && BitStep(x7) == x8
    ensures ByteStep(c, b) == x8
  {
    hide Xor, Widen, BitStep, Bits;
    OneBit(x, 8);
    OneBit(x1, 7);
    OneBit(x2, 6);
    OneBit(x3, 5);
    OneBit(x4, 4);
    OneBit(x5, 3);
    OneBit(x6, 2);
    OneBit(x7, 1);
    NoBitsLeft(x8);
  }

  lemma NoBitsLeft(c: bv32)
    ensures Bits(c, 0) == c
  {
  }

  lemma InitStep()
    ensures ByteStep(0xFFFF_FFFF, 0x00) == 0x2DFD_1072
  {
    ByteIs(0xFFFF_FFFF, 0x00, 0xFFFF_FFFF, 0x9247_7CDF, 0xA49B_3D4F, 0xBFF5_1D87, 0xB242_0DE3, 0xB499_85D1, 0xB7F4_41C8, 0x5BFA_20E4, 0x2DFD_1072);
  }

  lemma InitMoves()
    ensures ByteStep(INIT, 0) != INIT
  {
    InitStep();
    hide ByteStep;
  }

  lemma Check1()
    ensures ByteStep(0xFFFF_FFFF, 0x31) == 0x7C23_1048
  {
    ByteIs(0xFFFF_FFFF, 0x31, 0xFFFF_FFCE, 0x7FFF_FFE7, 0xD247_7CD3, 0x849B_3D49, 0xAFF5_1D84, 0x57FA_8EC2, 0x2BFD_4761, 0xF846_2090, 0x7C23_1048);
  }

  lemma Check2()
    ensures ByteStep(0x7C23_1048, 0x32) == 0xB0AC_BB32
  {
    ByteIs(0x7C23_1048, 0x32, 0x7C23_107A, 0x3E11_883D, 0xF2B0_473E, 0x7958_239F, 0xD114_92EF, 0x8532_CA57, 0xAF21_E60B, 0xBA28_7025, 0xB0AC_BB32);
  }

  lemma Check3()
    ensures ByteStep(0xB0AC_BB32, 0x33) == 0x77B7_9C2D
  {
    ByteIs(0xB0AC_BB32, 0x33, 0xB0AC_BB01, 0xB5EE_DEA0, 0x5AF7_6F50, 0x2D7B_B7A8, 0x16BD_DBD4, 0x0B5E_EDEA, 0x05AF_76F5, 0xEF6F_385A, 0x77B7_9C2D);
  }

  lemma Check4()
    ensures ByteStep(0x77B7_9C2D, 0x34) == 0x641C_1F5C
  {
    ByteIs(0x77B7_9C2D, 0x34, 0x77B7_9C19, 0xD663_4D2C, 0x6B31_A696, 0x3598_D34B, 0xF774_EA85, 0x9602_F662, 0x4B01_7B31, 0xC838_3EB8, 0x641C_1F5C);
  }

  lemma Check5()
    ensures ByteStep(0x641C_1F5C, 0x35) == 0x340A_C5E3
  {
    ByteIs(0x641C_1F5C, 0x35, 0x641C_1F69, 0xDFB6_8C94, 0x6FDB_464A, 0x37ED_A325, 0xF64E_52B2, 0x7B27_2959, 0xD02B_178C, 0x6815_8BC6, 0x340A_C5E3);
  }

  lemma Check6()
    ensures ByteStep(0x340A_C5E3, 0x36) == 0xF68D_2C9E
  {
    ByteIs(0x340A_C5E3, 0x36, 0x340A_C5D5, 0xF7BD_E1CA, 0x7BDE_F0E5, 0xD057_FB52, 0x682B_FDA9, 0xD9AD_7DF4, 0x6CD6_BEFA, 0x366B_5F7D, 0xF68D_2C9E);
  }

  lemma Check7()
    ensures ByteStep(0xF68D_2C9E, 0x37) == 0xAFFC_9660
  {
    ByteIs(0xF68D_2C9E, 0x37, 0xF68D_2CA9, 0x96FE_1574, 0x4B7F_0ABA, 0x25BF_855D, 0xFF67_418E, 0x7FB3_A0C7, 0xD261_5343, 0x8488_2A81, 0xAFFC_9660);
  }

  lemma Check8()
    ensures ByteStep(0xAFFC_9660, 0x38) == 0x651F_2550
  {
    ByteIs(0xAFFC_9660, 0x38, 0xAFFC_9658, 0x57FE_4B2C, 0x2BFF_2596, 0x15FF_92CB, 0xE747_4A45, 0x9E1B_2602, 0x4F0D_9301, 0xCA3E_4AA0, 0x651F_2550);
  }

  lemma Check9()
    ensures ByteStep(0x651F_2550, 0x39) == 0x340B_C6D9
  {
    ByteIs(0x651F_2550, 0x39, 0x651F_2569, 0xDF37_1194, 0x6F9B_88CA, 0x37CD_C465, 0xF65E_6112, 0x7B2F_3089, 0xD02F_1B64, 0x6817_8DB2, 0x340B_C6D9);
  }

  /** The CRC of nothing, and the check value of "123456789". */
  lemma CheckValues()
    ensures Crc([]) == 0
    ensures Crc([0x31, 0x32, 0x33, 0x34, 0x35, 0x36, 0x37, 0x38, 0x39]) == 0xCBF4_3926
  {
    AbsorbNone(INIT);
    NotIs(INIT, 0);
    CheckState();
    hide Absorb, Not;
    NotIs(Absorb(INIT, [0x31, 0x32, 0x33, 0x34, 0x35, 0x36, 0x37, 0x38, 0x39]), 0xCBF4_3926);
  }

  lemma CheckState()
    ensures Absorb(INIT, [0x31, 0x32, 0x33, 0x34, 0x35, 0x36, 0x37, 0x38, 0x39]) == 0x340B_C6D9
  {
    hide ByteStep, Absorb;
    var a, b, c: octets := [0x31, 0x32, 0x33], [0x34, 0x35, 0x36], [0x37, 0x38, 0x39];
    assert a + (b + c) == [0x31, 0x32, 0x33, 0x34, 0x35, 0x36, 0x37, 0x38, 0x39];
    AbsorbConcat(INIT, a, b + c);
    AbsorbConcat(0x77B7_9C2D, b, c);
    FirstThree();
    MiddleThree();
    LastThree();
  }

  lemma FirstThree()
    ensures Absorb(0xFFFF_FFFF, [0x31, 0x32, 0x33]) == 0x77B7_9C2D
  {
    Check1();
    Check2();
    Check3();
    hide ByteStep, Absorb;
    ThreeBytes(0xFFFF_FFFF, 0x31, 0x32, 0x33);
  }

  lemma MiddleThree()
    ensures Absorb(0x77B7_9C2D, [0x34, 0x35, 0x36]) == 0xF68D_2C9E
  {
    Check4();
    Check5();
    Check6();
    hide ByteStep, Absorb;
    ThreeBytes(0x77B7_9C2D, 0x34, 0x35, 0x36);
  }

  lemma LastThree()
    ensures Absorb(0xF68D_2C9E, [0x37, 0x38, 0x39]) == 0x340B_C6D9
  {
    Check7();
    Check8();
    Check9();
    hide ByteStep, Absorb;
    ThreeBytes(0xF68D_2C9E, 0x37, 0x38, 0x39);
  }

  lemma ThreeBytes(x: bv32, a: octet, b: octet, c: octet)
    ensures Absorb(x, [a, b, c]) == ByteStep(ByteStep(ByteStep(x, a), b), c)
  {
    hide ByteStep;
    assert [a] + [b, c] == [a, b, c] && [b] + [c] == [b, c] && [c] + [] == [c];
    hide Absorb;
    AbsorbFirst(x, a, [b, c]);
    AbsorbFirst(ByteStep(x, a), b, [c]);
    AbsorbFirst(ByteStep(ByteStep(x, a), b), c, []);
    AbsorbNone(ByteStep(ByteStep(ByteStep(x, a), b), c));
  }

  lemma AbsorbNone(c: bv32)
    ensures Absorb(c, []) == c
  {
  }

  lemma NotIs(c: bv32, d: bv32)
    requires c ^ 0xFFFF_FFFF == d
    ensures Not(c) == d
  {
  }
}
