/** Decoding of the printer's automatic status block (ASB): the module
    looks at two bits of the ninth byte (presenter paper sensors) and one
    bit of the sixth byte (paper roll sensor) of a ten-byte buffer. */
module AsbStatus {
  import opened Wrappers

  /** Size of the buffer the status block is read into. */
  const AsbLength: nat := 10

  /** Offsets of the bytes that are decoded (0-based). */
  const RollByte: nat := 5
  const PresenterByte: nat := 8

  datatype AsbFlags = AsbFlags(paperCollected: bool, rollMissing: bool)

  /** Both presenter paper bits (0x04 and 0x02) clear: the paper was taken
      or none is waiting. */
  predicate PaperCollected(asb: seq<Byte>)
    requires |asb| == AsbLength
    ensures PaperCollected(asb) <==> (asb[PresenterByte] & 0x06) == 0x00
  {
    (asb[PresenterByte] & 0x04) == 0x00 && (asb[PresenterByte] & 0x02) == 0x00
  }

  /** The roll sensor bit 0x04 is set: there is no paper roll. */
  predicate RollMissing(asb: seq<Byte>)
    requires |asb| == AsbLength
  {
    (asb[RollByte] & 0x04) == 0x04
  }

  function Decode(asb: seq<Byte>): AsbFlags
    requires |asb| == AsbLength
  {
    AsbFlags(PaperCollected(asb), RollMissing(asb))
  }

  /** Bit `k` of `b`, computed with integer arithmetic only. */
  function BitOf(b: Byte, k: nat): bool
    requires k < 8
  {
    (b as int / Pow2(k)) % 2 == 1
  }

  function Pow2(k: nat): (p: nat)
    ensures p >= 1
  {
    if k == 0 then 1 else 2 * Pow2(k - 1)
  }

  /** The 0x04 mask tests bit 2 of the integer reading of a byte. */
  lemma Mask04(b: Byte)
    ensures ((b & 0x04) == 0x04) == BitOf(b, 2)
    ensures ((b & 0x04) == 0x00) == !BitOf(b, 2)
  {
    assert Pow2(2) == 4;
    var n := b as int;
    assert (b & 0x04) == 0x04 || (b & 0x04) == 0x00;
    assert (b & 0x04) as int == (n / 4) % 2 * 4;
  }

  /** The 0x02 mask tests bit 1 of the integer reading of a byte. */
  lemma Mask02(b: Byte)
    ensures ((b & 0x02) == 0x00) == !BitOf(b, 1)
  {
    assert Pow2(1) == 2;
    var n := b as int;
    assert (b & 0x02) as int == (n / 2) % 2 * 2;
  }

  /** paperCollected holds exactly when bits 1 and 2 of the ninth byte are
      both clear. */
  lemma PaperCollectedIff(asb: seq<Byte>)
    requires |asb| == AsbLength
    ensures Decode(asb).paperCollected <==> !BitOf(asb[8], 1) && !BitOf(asb[8], 2)
  {
    Mask04(asb[8]);
    Mask02(asb[8]);
  }

  /** rollMissing holds exactly when bit 2 of the sixth byte is set. */
  lemma RollMissingIff(asb: seq<Byte>)
    requires |asb| == AsbLength
    ensures Decode(asb).rollMissing <==> BitOf(asb[5], 2)
  {
    Mask04(asb[5]);
  }

  /** Nothing but bits 1 and 2 of byte 8 affects paperCollected, and
      nothing but bit 2 of byte 5 affects rollMissing. */
  lemma DecodeReadsOnlyItsBits(a: seq<Byte>, b: seq<Byte>)
    requires |a| == AsbLength && |b| == AsbLength
    ensures BitOf(a[8], 1) == BitOf(b[8], 1) && BitOf(a[8], 2) == BitOf(b[8], 2)
            ==> Decode(a).paperCollected == Decode(b).paperCollected
    ensures BitOf(a[5], 2) == BitOf(b[5], 2) ==> Decode(a).rollMissing == Decode(b).rollMissing
  {
    PaperCollectedIff(a);
    PaperCollectedIff(b);
    RollMissingIff(a);
    RollMissingIff(b);
  }

  /** The status block with every byte zero: paper collected, roll present. */
  lemma DecodeAllZero(asb: seq<Byte>)
    requires |asb| == AsbLength
    requires forall i :: 0 <= i < |asb| ==> asb[i] == 0
    ensures Decode(asb) == AsbFlags(true, false)
  {
    assert asb[5] == 0 && asb[8] == 0;
  }
}
