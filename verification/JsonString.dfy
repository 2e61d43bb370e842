/** The NDJSON renderer's string printer against a parser of JSON strings (RFC 8259, section 7). */
module JsonString {
  import opened Basics

  /** A Unicode scalar value. */
  type Scalar = x: int | 0 <= x < 0x11_0000 && !(0xD800 <= x < 0xE000)
  type Text = seq<Scalar>

  const QUOTE: Scalar := 0x22
  const BACKSLASH: Scalar := 0x5C

  // ---- printing ----------------------------------------------------------------------

  /** `char::is_control`: C0, DEL and C1. */
  predicate Control(c: Scalar) {
    c < 0x20 || 0x7F <= c < 0xA0
  }

  /** The embedding, override and isolate controls of bidirectional text. */
  predicate Bidi(c: Scalar) {
    0x202A <= c <= 0x202E || 0x2066 <= c <= 0x2069
  }

  function HexDigit(d: int): Scalar
    requires 0 <= d < 16
  {
    if d < 10 then 0x30 + d else 0x61 + d - 10
  }

  /** `{:04x}` of a value that needs no more than four digits. */
  function Hex4(n: int): Text
    requires 0 <= n < 0x1_0000
  {
    [HexDigit(n / 0x1000), HexDigit(n / 0x100 % 16), HexDigit(n / 16 % 16), HexDigit(n % 16)]
  }

  function Escape(c: Scalar): (t: Text)
    ensures t != []
  {
    if c == QUOTE then [BACKSLASH, QUOTE]
    else if c == BACKSLASH then [BACKSLASH, BACKSLASH]
    else if c == 0x0A then [BACKSLASH, 0x6E]
    else if c == 0x0D then [BACKSLASH, 0x72]
    else if c == 0x09 then [BACKSLASH, 0x74]
    else if Control(c) || Bidi(c) then [BACKSLASH, 0x75] + Hex4(c)
    else [c]
  }

  function Escaped(s: Text): Text {
    if s == [] then [] else Escape(s[0]) + Escaped(s[1..])
  }

  lemma {:induction false} EscapedSnoc(s: Text, c: Scalar)
    ensures Escaped(s + [c]) == Escaped(s) + Escape(c)
  {
    hide Escape;
    if s == [] {
      assert s + [c] == [c] && [c][1..] == [];
    } else {
      assert (s + [c])[1..] == s[1..] + [c];
      EscapedSnoc(s[1..], c);
      Associate(Escape(s[0]), Escaped(s[1..]), Escape(c));
    }
  }

  lemma Associate(x: Text, y: Text, z: Text)
    ensures x + (y + z) == (x + y) + z
  {
  }

  function Printed(s: Text): Text {
    [QUOTE] + Escaped(s) + [QUOTE]
  }

  method JsonStr(s: Text) returns (out: Text)
    ensures out == Printed(s)
  {
    hide Escape;
    out := [QUOTE];
    assert s[..0] == [];
    assert Escaped([]) == [];
    for i := 0 to |s|
      invariant out == [QUOTE] + Escaped(s[..i])
    {
      EscapedSnoc(s[..i], s[i]);
      assert s[..i + 1] == s[..i] + [s[i]];
      Associate([QUOTE], Escaped(s[..i]), Escape(s[i]));
      out := out + Escape(s[i]);
    }
    assert s[..|s|] == s;
    out := out + [QUOTE];
  }

  // ---- parsing -----------------------------------------------------------------------

  function HexValue(c: Scalar): (v: Option<int>)
    ensures v.Some? ==> 0 <= v.value < 16
  {
    if 0x30 <= c <= 0x39 then Some(c - 0x30)
    else if 0x41 <= c <= 0x46 then Some(c - 0x41 + 10)
    else if 0x61 <= c <= 0x66 then Some(c - 0x61 + 10)
    else None
  }

  function Combine(a: int, b: int, c: int, d: int): (n: int)
    requires 0 <= a < 16 && 0 <= b < 16 && 0 <= c < 16 && 0 <= d < 16
    ensures 0 <= n < 0x1_0000
  {
    a * 0x1000 + b * 0x100 + c * 16 + d
  }

  /** The code unit of four hex digits. */
  function Unit(t: Text): (u: Option<int>)
    ensures u.Some? ==> |t| >= 4 && 0 <= u.value < 0x1_0000
  {
    if |t| < 4 then None
    else
      var a, b, c, d := HexValue(t[0]), HexValue(t[1]), HexValue(t[2]), HexValue(t[3]);
      if a.Some? && b.Some? && c.Some? && d.Some? then Some(Combine(a.value, b.value, c.value, d.value)) else None
  }

  /** One character, plain or escaped, and how long it is. */
  datatype Token = Token(c: Scalar, len: nat)

  /** The two-character escapes. */
  function Short(e: Scalar): Option<Scalar> {
    if e == QUOTE || e == BACKSLASH || e == 0x2F then Some(e)
    else if e == 0x62 then Some(0x08)
    else if e == 0x66 then Some(0x0C)
    else if e == 0x6E then Some(0x0A)
    else if e == 0x72 then Some(0x0D)
    else if e == 0x74 then Some(0x09)
    else None
  }

  /** A `\u` escape: a scalar of the basic plane, or a surrogate pair; a lone surrogate is an error. */
  function UnicodeEscape(t: Text): (r: Option<Token>)
    ensures r.Some? ==> 0 < r.value.len <= |t|
  {
    if |t| < 6 then None
    else match Unit(t[2..])
      case None => None
      case Some(u) =>
        if 0xD800 <= u < 0xDC00 then
          if |t| >= 12 && t[6] == BACKSLASH && t[7] == 0x75 then
            match Unit(t[8..])
            case None => None
            case Some(v) =>
              if 0xDC00 <= v < 0xE000 then Some(Token(0x1_0000 + (u - 0xD800) * 0x400 + (v - 0xDC00), 12)) else None
          else None
        else if 0xDC00 <= u < 0xE000 then None
        else Some(Token(u, 6))
  }

  /** The character at the start of `t`; none at a closing quote, a raw control or a bad escape. */
  function NextToken(t: Text): (r: Option<Token>)
    ensures r.Some? ==> 0 < r.value.len <= |t|
  {
    if t == [] || t[0] == QUOTE || t[0] < 0x20 then None
    else if t[0] != BACKSLASH then Some(Token(t[0], 1))
    else if |t| < 2 then None
    else if t[1] == 0x75 then UnicodeEscape(t)
    else match Short(t[1])
      case None => None
      case Some(c) => Some(Token(c, 2))
  }

  /** The characters up to the closing quote, and what follows it. */
  function ParseChars(t: Text): Option<(Text, Text)>
    decreases |t|
  {
    if t != [] && t[0] == QUOTE then Some(([], t[1..]))
    else match NextToken(t)
      case None => None
      case Some(k) =>
        match ParseChars(t[k.len..])
        case None => None
        case Some(p) => Some(([k.c] + p.0, p.1))
  }

  /** A JSON string at the start of `t`, and what follows it. */
  function Parse(t: Text): Option<(Text, Text)> {
    if t != [] && t[0] == QUOTE then ParseChars(t[1..]) else None
  }

  // ---- the round trip ----------------------------------------------------------------

  lemma HexRoundTrip(n: int, rest: Text)
    requires 0 <= n < 0x1_0000
    ensures Unit(Hex4(n) + rest) == Some(n)
  {
    DigitsOf(n);
    var a, b, c, d := n / 0x1000, n / 0x100 % 16, n / 16 % 16, n % 16;
    DigitRoundTrip(a);
    DigitRoundTrip(b);
    DigitRoundTrip(c);
    DigitRoundTrip(d);
    hide HexDigit, HexValue, Combine;
    var t := Hex4(n) + rest;
    assert t[0] == HexDigit(a) && t[1] == HexDigit(b) && t[2] == HexDigit(c) && t[3] == HexDigit(d);
  }

  lemma DigitsOf(n: int)
    requires 0 <= n < 0x1_0000
    ensures Combine(n / 0x1000, n / 0x100 % 16, n / 16 % 16, n % 16) == n
  {
    assert n / 0x100 == n / 0x1000 * 16 + n / 0x100 % 16;
    assert n / 16 == n / 0x100 * 16 + n / 16 % 16;
  }

  lemma DigitRoundTrip(d: int)
    requires 0 <= d < 16
    ensures HexValue(HexDigit(d)) == Some(d)
  {
  }

  /** What `Escape` prints for one character reads back as that character, whatever follows. */
  lemma TokenRoundTrip(c: Scalar, rest: Text)
    ensures (Escape(c) + rest)[0] != QUOTE
    ensures NextToken(Escape(c) + rest) == Some(Token(c, |Escape(c)|))
    ensures (Escape(c) + rest)[|Escape(c)|..] == rest
  {
    var t := Escape(c) + rest;
    if |Escape(c)| == 6 {
      assert t[2..] == Hex4(c) + rest;
      HexRoundTrip(c, rest);
      hide Hex4, Unit;
    }
  }

  lemma {:induction false} CharsRoundTrip(s: Text, rest: Text)
    ensures ParseChars(Escaped(s) + [QUOTE] + rest) == Some((s, rest))
  {
    var t := Escaped(s) + [QUOTE] + rest;
    if s == [] {
      assert t[0] == QUOTE && t[1..] == rest;
    } else {
      var more := Escaped(s[1..]) + [QUOTE] + rest;
      CharsRoundTrip(s[1..], rest);
      TokenRoundTrip(s[0], more);
      FirstToken(s, rest);
      hide Escape, NextToken, Escaped;
      assert t == Escape(s[0]) + more;
      assert [s[0]] + s[1..] == s;
    }
  }

  lemma FirstToken(s: Text, rest: Text)
    requires s != []
    ensures Escaped(s) + [QUOTE] + rest == Escape(s[0]) + (Escaped(s[1..]) + [QUOTE] + rest)
  {
  }

  /** Every string survives, in any surrounding text: the parser gives back the very string and stops
      right behind it. */
  lemma RoundTrip(s: Text, rest: Text)
    ensures Parse(Printed(s) + rest) == Some((s, rest))
  {
    CharsRoundTrip(s, rest);
    assert (Printed(s) + rest)[1..] == Escaped(s) + [QUOTE] + rest;
    hide ParseChars, Escaped;
  }

  /** Nothing a terminal could act on leaves the printer, and no line break. */
  lemma {:induction false} PrintedIsInert(s: Text)
    ensures forall c :: c in Printed(s) ==>
      0x20 <= c && !(0x7F <= c <= 0x9F) && !(0x202A <= c <= 0x202E) && !(0x2066 <= c <= 0x2069)
  {
    EscapedIsInert(s);
    hide Escaped;
  }

  /** Everything else is printed as it is, but for the quote and the backslash. */
  lemma RawIff(c: Scalar)
    ensures Printed([c]) == [0x22, c, 0x22] <==>
      && 0x20 <= c && c != 0x22 && c != 0x5C && !(0x7F <= c <= 0x9F)
      && !(0x202A <= c <= 0x202E) && !(0x2066 <= c <= 0x2069)
  {
    assert [c][1..] == [] && Escaped([]) == [];
    assert Escape(c) + [] == Escape(c);
    assert Escaped([c]) == Escape(c);
    assert Printed([c]) == [QUOTE] + Escape(c) + [QUOTE];
    if |Escape(c)| == 1 {
      assert Printed([c])[1] == Escape(c)[0];
    }
  }

  lemma {:induction false} EscapedIsInert(s: Text)
    ensures forall c :: c in Escaped(s) ==> !Control(c) && !Bidi(c)
  {
    if s != [] {
      EscapeIsInert(s[0]);
      hide Escape, Control, Bidi;
      EscapedIsInert(s[1..]);
    }
  }

  lemma EscapeIsInert(c: Scalar)
    ensures forall d :: d in Escape(c) ==> !Control(d) && !Bidi(d)
  {
  }
}
