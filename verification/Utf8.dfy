/** UTF-8 text as the firmware and the host tool hold it: a byte sequence that is well formed
    (RFC 3629, section 4), together with the char-boundary test both sides splice and split by. */
module Utf8 {
  import opened Basics

  predicate Continuation(b: byte) {
    0x80 <= b < 0xC0
  }

  /** Encoded length announced by a lead byte; 0 for a byte that cannot lead. */
  function LeadLen(b: byte): (n: nat)
    ensures n <= 4
    ensures n > 0 ==> !Continuation(b)
  {
    if b < 0x80 then 1
    else if 0xC2 <= b < 0xE0 then 2
    else if 0xE0 <= b < 0xF0 then 3
    else if 0xF0 <= b < 0xF5 then 4
    else 0
  }

  /** `s` starts with one well-formed scalar (no overlong form, no surrogate, at most U+10FFFF). */
  predicate ScalarAt(s: bytes) {
    && |s| > 0
    && var n := LeadLen(s[0]);
    && 0 < n <= |s|
    && (n >= 2 ==> Continuation(s[1]))
    && (n >= 3 ==> Continuation(s[2]))
    && (n >= 4 ==> Continuation(s[3]))
    && (s[0] == 0xE0 ==> s[1] >= 0xA0)
    && (s[0] == 0xED ==> s[1] < 0xA0)
    && (s[0] == 0xF0 ==> s[1] >= 0x90)
    && (s[0] == 0xF4 ==> s[1] < 0x90)
  }

  predicate Valid(s: bytes) {
    s == [] || (ScalarAt(s) && Valid(s[LeadLen(s[0])..]))
  }

  /** Rust's `str::is_char_boundary`. */
  predicate Boundary(s: bytes, i: int) {
    i == 0 || i == |s| || (0 < i < |s| && !Continuation(s[i]))
  }

  /** Whether a text starts with a whole character is decided by that character. */
  lemma ScalarStays(a: bytes, b: bytes)
    requires ScalarAt(a)
    ensures a != [] && ScalarAt(a + b) && (a + b)[0] == a[0] && LeadLen(a[0]) <= |a|
  {
  }

  lemma {:induction false} ConcatValid(a: bytes, b: bytes)
    requires Valid(a) && Valid(b)
    ensures Valid(a + b)
  {
    if a == [] {
      assert a + b == b;
    } else {
      ScalarStays(a, b);
      hide ScalarAt, LeadLen;
      var n := LeadLen(a[0]);
      ConcatValid(a[n..], b);
      assert (a + b)[n..] == a[n..] + b;
    }
  }

  /** In valid text a boundary is exactly a place where both halves stay valid. */
  lemma {:induction false} SplitValid(s: bytes, i: nat)
    requires Valid(s) && i <= |s|
    ensures Boundary(s, i) <==> Valid(s[..i]) && Valid(s[i..])
  {
    if i == 0 {
      assert s[..0] == [] && s[0..] == s;
    } else if i == |s| {
      assert s[..i] == s && s[i..] == [];
    } else {
      var n := LeadLen(s[0]);
      if i < n {
        assert 1 <= i <= 3;
        assert Continuation(s[i]);
        assert s[i..][0] == s[i];
      } else {
        SplitValid(s[n..], i - n);
        assert s[n..][i - n..] == s[i..];
        assert s[..i][n..] == s[n..][..i - n];
        assert i < |s| && i > n ==> s[n..][i - n] == s[i];
        if i == n {
          assert s[i..][0] == s[n..][0];
        }
      }
    }
  }

  /** The last boundary at or before `limit`; the split loops step down to it. */
  function FloorBoundary(s: bytes, limit: nat): (i: nat)
    requires limit <= |s|
    ensures i <= limit && Boundary(s, i)
    ensures forall j :: i < j <= limit ==> !Boundary(s, j)
  {
    if Boundary(s, limit) then limit else FloorBoundary(s, limit - 1)
  }

  /** The loop both shell sinks split text with. */
  method StepDown(s: bytes, limit: nat) returns (take: nat)
    requires limit <= |s|
    ensures take == FloorBoundary(s, limit)
  {
    take := limit;
    while !Boundary(s, take)
      invariant take <= limit
      invariant FloorBoundary(s, limit) == FloorBoundary(s, take)
      decreases take
    {
      take := take - 1;
    }
  }

  /** Cutting valid text at the last boundary within `limit` takes at least one character when
      four bytes fit (or the text itself does), leaves two valid texts, and wastes at most three
      bytes of the limit. */
  lemma SplitAtFloor(s: bytes, limit: nat)
    requires Valid(s) && limit <= |s|
    ensures var take := FloorBoundary(s, limit);
      && Valid(s[..take]) && Valid(s[take..]) && s == s[..take] + s[take..]
      && limit - take <= 3
      && (s != [] && (limit >= 4 || limit == |s|) ==> take > 0)
  {
    SplitValid(s, FloorBoundary(s, limit));
    FloorWithinThree(s, limit);
  }

  /** A window of four bytes always holds a whole first character, and two adjacent boundaries
      are at most four bytes apart. */
  lemma {:induction false} FloorWithinThree(s: bytes, limit: nat)
    requires Valid(s) && limit <= |s|
    ensures limit - FloorBoundary(s, limit) <= 3
  {
    if limit > 0 {
      var n := LeadLen(s[0]);
      if limit >= n {
        SplitValid(s, n);
        assert Boundary(s, n) by {
          assert n < |s| ==> ScalarAt(s[n..]) && s[n..][0] == s[n];
        }
        FloorWithinThree(s[n..], limit - n);
        var f := FloorBoundary(s[n..], limit - n);
        assert Boundary(s, n + f) by {
          assert 0 < f < |s[n..]| ==> s[n..][f] == s[n + f];
        }
      }
    }
  }

  // ---- the encoding ------------------------------------------------------------------

  /** A Unicode scalar value. */
  type Scalar = c: int | 0 <= c < 0x11_0000 && !(0xD800 <= c < 0xE000)

  /** A scalar without its low six bits, and these. */
  function Upper(c: nat): nat { c / 0x40 }
  function Lower6(c: nat): nat { c % 0x40 }

  /** RFC 3629, section 3: six bits a continuation byte. */
  function Encode(c: Scalar): (e: bytes)
    ensures 1 <= |e| <= 4
  {
    if c < 0x80 then [c]
    else if c < 0x800 then [0xC0 + Upper(c), 0x80 + Lower6(c)]
    else if c < 0x1_0000 then [0xE0 + Upper(Upper(c)), 0x80 + Lower6(Upper(c)), 0x80 + Lower6(c)]
    else [0xF0 + Upper(Upper(Upper(c))), 0x80 + Lower6(Upper(Upper(c))), 0x80 + Lower6(Upper(c)), 0x80 + Lower6(c)]
  }

  function EncodeAll(cs: seq<Scalar>): bytes {
    if cs == [] then [] else Encode(cs[0]) + EncodeAll(cs[1..])
  }

  /** An encoded scalar is one well-formed scalar, whatever follows. */
  lemma EncodedIsScalar(c: Scalar, rest: bytes)
    ensures ScalarAt(Encode(c) + rest) && LeadLen(Encode(c)[0]) == |Encode(c)|
  {
  }

  /** Six more bits. */
  function Six(q: nat, b: byte): nat
    requires Continuation(b)
  {
    q * 0x40 + (b as int - 0x80)
  }

  lemma SixBits(q: nat, b: byte)
    requires Continuation(b)
    ensures Upper(Six(q, b)) == q && Lower6(Six(q, b)) == b - 0x80
  {
  }

  /** The scalar a well-formed text starts with. */
  function Decode(s: bytes): nat
    requires ScalarAt(s)
  {
    match LeadLen(s[0])
    case 1 => s[0]
    case 2 => Six(s[0] - 0xC0, s[1])
    case 3 => Six(Six(s[0] - 0xE0, s[1]), s[2])
    case _ => Six(Six(Six(s[0] - 0xF0, s[1]), s[2]), s[3])
  }

  lemma DecodedIsScalar(s: bytes)
    requires ScalarAt(s)
    ensures 0 <= Decode(s) < 0x11_0000 && !(0xD800 <= Decode(s) < 0xE000)
  {
  }

  lemma DecodeThenEncode(s: bytes)
    requires ScalarAt(s)
    ensures 0 <= Decode(s) < 0x11_0000 && !(0xD800 <= Decode(s) < 0xE000)
    ensures LeadLen(s[0]) <= |s| && Encode(Decode(s)) == s[..LeadLen(s[0])]
  {
    DecodedIsScalar(s);
    DecodedRange(s);
    hide Upper, Lower6, Six;
    match LeadLen(s[0])
    case 1 =>
    case 2 =>
      SixBits(s[0] - 0xC0, s[1]);
    case 3 =>
      SixBits(s[0] - 0xE0, s[1]);
      SixBits(Six(s[0] - 0xE0, s[1]), s[2]);
    case 4 =>
      LongEncoded(s);
  }

  lemma LongEncoded(s: bytes)
    requires ScalarAt(s) && LeadLen(s[0]) == 4 && 0x1_0000 <= Decode(s) < 0x11_0000
    ensures Encode(Decode(s)) == s[..4]
  {
    hide Upper, Lower6, Six;
    var q: nat := s[0] - 0xF0;
    SixBits(q, s[1]);
    SixBits(Six(q, s[1]), s[2]);
    SixBits(Six(Six(q, s[1]), s[2]), s[3]);
  }

  /** The length says how large the scalar is. */
  lemma DecodedRange(s: bytes)
    requires ScalarAt(s)
    ensures LeadLen(s[0]) == 1 <==> Decode(s) < 0x80
    ensures LeadLen(s[0]) <= 2 <==> Decode(s) < 0x800
    ensures LeadLen(s[0]) <= 3 <==> Decode(s) < 0x1_0000
  {
  }

  lemma {:induction false} EncodedIsValid(cs: seq<Scalar>)
    ensures Valid(EncodeAll(cs))
  {
    if cs != [] {
      var e, rest := Encode(cs[0]), EncodeAll(cs[1..]);
      EncodedIsValid(cs[1..]);
      EncodedIsScalar(cs[0], rest);
      assert (e + rest)[|e|..] == rest && (e + rest)[0] == e[0];
    }
  }

  lemma FirstAndRest(s: bytes)
    requires Valid(s) && s != []
    ensures ScalarAt(s) && 0 < LeadLen(s[0]) <= |s| && Valid(s[LeadLen(s[0])..])
    ensures s == s[..LeadLen(s[0])] + s[LeadLen(s[0])..]
  {
  }

  lemma EncodeAllCons(c: Scalar, cs: seq<Scalar>)
    ensures EncodeAll([c] + cs) == Encode(c) + EncodeAll(cs)
  {
    assert ([c] + cs)[1..] == cs;
  }

  lemma {:induction false} ValidIsEncoded(s: bytes) returns (cs: seq<Scalar>)
    requires Valid(s)
    ensures EncodeAll(cs) == s
    decreases |s|
  {
    if s == [] {
      cs := [];
    } else {
      hide *;
      FirstAndRest(s);
      DecodeThenEncode(s);
      var n := LeadLen(s[0]);
      var more := ValidIsEncoded(s[n..]);
      cs := [Decode(s)] + more;
      EncodeAllCons(Decode(s), more);
    }
  }

  /** Valid text is exactly what encoding scalars gives. */
  lemma ValidIffEncoded(s: bytes)
    ensures Valid(s) <==> exists cs :: s == EncodeAll(cs)
  {
    if Valid(s) {
      var cs := ValidIsEncoded(s);
    }
    if cs :| s == EncodeAll(cs) {
      EncodedIsValid(cs);
    }
  }
}
