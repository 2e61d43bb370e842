/** The programs that compute the CRC: the soak test's checked payloads and the bulk stream test's
    constant-memory check of a known pattern. */
module CrcStream {
  import opened Crc32

  // ---- the loops ------------------------------------------------------------------

  /** The body of the inner loop. */
  method StepWord(crc: bv32) returns (r: bv32)
    ensures r == BitStep(crc)
  {
    var m := 0 - (crc & 1);
    r := (crc >> 1) ^ (0xEDB8_8320 & m);
  }

  method MixIn(crc: bv32, b: octet) returns (r: bv32)
    ensures r == Xor(crc, Widen(b))
  {
    r := crc ^ (b as bv32);
  }

  /** The inner loop: eight bits of one byte. */
  method AbsorbByte(crc: bv32, b: octet) returns (r: bv32)
    ensures r == ByteStep(crc, b)
  {
    hide Bits, BitStep, Xor, Widen;
    r := MixIn(crc, b);
    ghost var start := r;
    for k := 0 to 8
      invariant Bits(start, 8) == Bits(r, 8 - k)
    {
      BitsStep(r, 8 - k);
      r := StepWord(r);
    }
    NoBits(r);
  }

  lemma BitsStep(crc: bv32, n: nat)
    requires n > 0
    ensures Bits(crc, n) == Bits(BitStep(crc), n - 1)
  {
  }

  lemma NoBits(crc: bv32)
    ensures Bits(crc, 0) == crc
  {
  }

  lemma AbsorbSnoc(crc: bv32, data: octets, b: octet)
    ensures Absorb(crc, data + [b]) == ByteStep(Absorb(crc, data), b)
  {
    hide ByteStep;
    AbsorbConcat(crc, data, [b]);
    assert [b][1..] == [];
    assert Absorb(ByteStep(Absorb(crc, data), b), []) == ByteStep(Absorb(crc, data), b);
  }

  method ComputeCrc(data: octets) returns (r: bv32)
    ensures r == Crc(data)
  {
    hide ByteStep;
    var crc: bv32 := 0xFFFF_FFFF;
    assert data[..0] == [];
    for i := 0 to |data|
      invariant crc == Absorb(INIT, data[..i])
    {
      AbsorbSnoc(INIT, data[..i], data[i]);
      assert data[..i + 1] == data[..i] + [data[i]];
      crc := AbsorbByte(crc, data[i]);
    }
    assert data[..|data|] == data;
    return !crc;
  }

  // ---- the reference pattern --------------------------------------------------------

  /** Byte `i` of the pattern: `i`, its second byte and a constant, added bitwise. */
  function Pat(i: nat): octet {
    ((i % 0x100) as bv8) ^ (((i / 0x100) % 0x100) as bv8) ^ 0xA5
  }

  function Pattern(n: nat): (p: octets)
    ensures |p| == n
    ensures forall i :: 0 <= i < n ==> p[i] == Pat(i)
  {
    if n == 0 then [] else Pattern(n - 1) + [Pat(n - 1)]
  }

  method CrcPattern(n: nat) returns (r: bv32)
    ensures r == Crc(Pattern(n))
  {
    hide ByteStep, Pat;
    var crc: bv32 := 0xFFFF_FFFF;
    for i := 0 to n
      invariant crc == Absorb(INIT, Pattern(i))
    {
      AbsorbSnoc(INIT, Pattern(i), Pat(i));
      crc := AbsorbByte(crc, Pat(i));
    }
    return !crc;
  }

  /** Bytes of `chunk`, placed at `offset`, that are not the pattern's. */
  function Mismatches(offset: nat, chunk: octets): (n: nat)
    decreases |chunk|
  {
    if chunk == [] then 0
    else (if chunk[0] == Pat(offset) then 0 else 1) + Mismatches(offset + 1, chunk[1..])
  }

  lemma {:induction false} MismatchesConcat(offset: nat, a: octets, b: octets)
    ensures Mismatches(offset, a + b) == Mismatches(offset, a) + Mismatches(offset + |a|, b)
    decreases |a|
  {
    hide Pat;
    if a == [] {
      assert a + b == b;
    } else {
      MismatchesConcat(offset + 1, a[1..], b);
      assert (a + b)[1..] == a[1..] + b;
    }
  }

  lemma {:induction false} NoMismatchIffPattern(offset: nat, chunk: octets)
    ensures Mismatches(offset, chunk) == 0 <==> forall i :: 0 <= i < |chunk| ==> chunk[i] == Pat(offset + i)
    decreases |chunk|
  {
    hide Pat;
    if chunk != [] {
      NoMismatchIffPattern(offset + 1, chunk[1..]);
      var rest := chunk[1..];
      assert forall i :: 0 <= i < |rest| ==> rest[i] == chunk[i + 1];
      if forall i :: 0 <= i < |chunk| ==> chunk[i] == Pat(offset + i) {
        forall i | 0 <= i < |rest| ensures rest[i] == Pat(offset + 1 + i) {
          assert chunk[i + 1] == Pat(offset + (i + 1));
        }
      }
      if Mismatches(offset, chunk) == 0 {
        forall i | 0 <= i < |chunk| ensures chunk[i] == Pat(offset + i) {
          if i > 0 {
            assert rest[i - 1] == Pat(offset + 1 + (i - 1));
          }
        }
      }
    }
  }

  /** Verifies and checksums a transfer chunk by chunk; nothing is kept of the data. */
  class CrcCheckSink {
    var total: nat
    var received: nat
    var byteErrors: nat
    var crc: bv32
    /** The bytes consumed since `Begin`, in order of arrival. */
    ghost var data: octets
    /** Every chunk so far was placed right behind the one before. */
    ghost var contiguous: bool

    ghost predicate Valid()
      reads this
    {
      && received == |data|
      && crc == Absorb(INIT, data)
      && (contiguous ==> byteErrors == Mismatches(0, data))
    }

    constructor ()
      ensures Valid() && received == 0 && data == [] && contiguous
    {
      total, received, byteErrors, crc := 0, 0, 0, 0xFFFF_FFFF;
      data, contiguous := [], true;
    }

    method Begin(totalLen: nat)
      modifies this
      ensures Valid() && total == totalLen && data == [] && contiguous
    {
      total, received, byteErrors, crc := totalLen, 0, 0, 0xFFFF_FFFF;
      data, contiguous := [], true;
    }

    method Consume(offset: nat, chunk: octets)
      requires Valid()
      modifies this
      ensures Valid() && total == old(total)
      ensures data == old(data) + chunk
      ensures contiguous == (old(contiguous) && offset == old(received))
    {
      hide ByteStep, Pat;
      ghost var before := data;
      ghost var errorsBefore := byteErrors;
      assert chunk[..0] == [] && before + [] == before;
      for j := 0 to |chunk|
        invariant crc == Absorb(INIT, before + chunk[..j])
        invariant byteErrors == errorsBefore + Mismatches(offset, chunk[..j])
        invariant total == old(total) && received == old(received) && data == before && contiguous == old(contiguous)
      {
        var b := chunk[j];
        assert chunk[..j + 1] == chunk[..j] + [b];
        MismatchesConcat(offset, chunk[..j], [b]);
        OneMismatch(offset + j, b);
        if b != Pat(offset + j) {
          byteErrors := byteErrors + 1;
        }
        AbsorbSnoc(INIT, before + chunk[..j], b);
        assert before + chunk[..j + 1] == (before + chunk[..j]) + [b];
        crc := AbsorbByte(crc, b);
      }
      assert chunk[..|chunk|] == chunk;
      MismatchesConcat(0, before, chunk);
      received := received + |chunk|;
      data := before + chunk;
      contiguous := contiguous && offset == |before|;
    }

    method FinalCrc() returns (r: bv32)
      requires Valid()
      ensures r == Crc(data)
    {
      return !crc;
    }
  }

  lemma OneMismatch(offset: nat, b: octet)
    ensures Mismatches(offset, [b]) == if b == Pat(offset) then 0 else 1
  {
  }

  /** A contiguous transfer shows no byte error exactly when it is the pattern, and then its CRC is
      the one the sender logged, however it was cut into chunks. */
  lemma CleanTransferHasPatternCrc(data: octets)
    ensures Mismatches(0, data) == 0 <==> data == Pattern(|data|)
    ensures Mismatches(0, data) == 0 ==> Crc(data) == Crc(Pattern(|data|))
  {
    hide Pat, Crc, Pattern, Mismatches;
    NoMismatchIffPattern(0, data);
    var p := Pattern(|data|);
    assert forall i :: 0 <= i < |data| ==> p[i] == Pat(i);
    if Mismatches(0, data) == 0 {
      assert forall i :: 0 <= i < |data| ==> data[i] == p[i] by {
        assert forall i :: 0 <= i < |data| ==> data[i] == Pat(0 + i);
      }
      assert data == p;
    }
  }

  /** The CRC sees a damaged transfer even without the byte check, when the damage lies within four
      consecutive bytes. */
  lemma DamagedTransferHasOtherCrc(data: octets, at: nat, n: nat)
    requires n <= 4 && at + n <= |data| && data != Pattern(|data|)
    requires data[..at] == Pattern(|data|)[..at] && data[at + n..] == Pattern(|data|)[at + n..]
    ensures Crc(data) != Crc(Pattern(|data|)) && Mismatches(0, data) > 0
  {
    hide Crc, Pat;
    BurstDetected(data, Pattern(|data|), at, n);
    CleanTransferHasPatternCrc(data);
  }

  // ---- the soak payload -------------------------------------------------------------

  /** `to_le_bytes`. */
  function LeBytes(w: bv32): (e: octets)
    ensures |e| == 4
  {
    [(w & 0xFF) as bv8, ((w >> 8) & 0xFF) as bv8, ((w >> 16) & 0xFF) as bv8, (w >> 24) as bv8]
  }

  function ReadLe(e: octets): bv32
    requires |e| == 4
  {
    (e[0] as bv32) | ((e[1] as bv32) << 8) | ((e[2] as bv32) << 16) | ((e[3] as bv32) << 24)
  }

  function Filler(seqNo: bv32, size: nat): (f: octets)
    requires 9 <= size <= 74
    ensures |f| == size - 9
  {
    seq(size - 9, i requires 0 <= i < size - 9 => FillerByte(seqNo, 9 + i))
  }

  /** `(seq as u8).wrapping_add(i as u8)`. */
  function FillerByte(seqNo: bv32, i: nat): octet {
    ((seqNo & 0xFF) as bv8) + ((i % 0x100) as bv8)
  }

  /** What the sender embeds: sequence number, declared size, CRC of the filler, filler. */
  function Payload(seqNo: bv32, size: nat): (d: octets)
    requires 9 <= size <= 74
    ensures |d| == size
  {
    var f := Filler(seqNo, size);
    LeBytes(seqNo) + [size as bv8] + LeBytes(Crc(f)) + f
  }

  /** The receiver's integrity check; a frame too short to hold a header is not checked. */
  predicate Intact(d: octets) {
    |d| < 9 ||
    (|d| < 0x100 && d[4] == |d| as bv8 && Crc(d[9..]) == ReadLe(d[5..9]))
  }

  lemma SentIsIntact(seqNo: bv32, size: nat)
    requires 9 <= size <= 74
    ensures Intact(Payload(seqNo, size))
  {
  }

  lemma LengthDamage(sent: octets, got: octets)
    requires |got| == |sent| && |sent| >= 9 && Intact(sent)
    requires got[4] != sent[4]
    ensures !Intact(got)
  {
  }

  lemma CrcFieldDamage(sent: octets, got: octets)
    requires |got| == |sent| && |sent| >= 9 && Intact(sent)
    requires got[5..9] != sent[5..9] && got[9..] == sent[9..]
    ensures !Intact(got)
  {
  }

  lemma FillerDamage(sent: octets, got: octets, at: nat, n: nat)
    requires |got| == |sent| && |sent| >= 9 && Intact(sent)
    requires got[5..9] == sent[5..9] && got[9..] != sent[9..]
    requires n <= 4 && at + n <= |sent| - 9
    requires got[9..][..at] == sent[9..][..at] && got[9..][at + n..] == sent[9..][at + n..]
    ensures !Intact(got)
  {
    hide Crc, ReadLe;
    BurstDetected(got[9..], sent[9..], at, n);
  }

  /** The bytes a damage of `n` bytes at `at` can have changed. */
  predicate DamagedAt(sent: octets, got: octets, at: nat, n: nat) {
    && |got| == |sent|
    && at + n <= |sent|
    && got != sent
    && forall i :: 0 <= i < |sent| && !(at <= i < at + n) ==> got[i] == sent[i]
  }

  /** A received payload of the right length is refused when only its length byte, only its CRC
      field, or at most four consecutive filler bytes were damaged. */
  lemma DamageIsReported(sent: octets, got: octets, at: nat, n: nat)
    requires |sent| >= 9 && Intact(sent) && DamagedAt(sent, got, at, n)
    requires (at == 4 && n == 1) || (at >= 5 && at + n <= 9) || (at >= 9 && n <= 4)
    ensures !Intact(got)
  {
    hide Intact;
    var i :| 0 <= i < |sent| && got[i] != sent[i];
    if at == 4 {
      LengthDamage(sent, got);
    } else if at >= 9 {
      assert got[9..][i - 9] != sent[9..][i - 9];
      FillerDamage(sent, got, at - 9, n);
    } else {
      assert got[5..9][i - 5] != sent[5..9][i - 5];
      CrcFieldDamage(sent, got);
    }
  }

  /** The CRC covers the filler only: a damaged sequence number passes. */
  lemma SequenceNumberIsNotCovered(sent: octets, got: octets)
    requires |got| == |sent| && |sent| >= 9 && got[4..] == sent[4..]
    ensures Intact(got) <==> Intact(sent)
  {
    hide Crc, ReadLe;
    assert got[4] == got[4..][0] && sent[4] == sent[4..][0];
    assert got[5..9] == got[4..][1..5] && sent[5..9] == sent[4..][1..5];
    assert got[9..] == got[4..][5..] && sent[9..] == sent[4..][5..];
  }

}
