/**
 * `Types.addressToUid`: the uid of a data item packs its page number and its in-page offset
 * into one Java `long`, as `(long) pgno << 32 | (long) offset`. Java's `int`, `short` and `long`
 * are modelled by their bit patterns (`bv32`, `bv16`, `bv64`); a pattern at or above the sign bit
 * is a negative number. Both widenings sign-extend, so a negative `short` offset fills the high
 * half of the uid with ones.
 */
module Types {

  /** `addressToUid(pgno, offset)`. */
  function AddressToUid(pgno: bv32, offset: bv16): (r: bv64)
    ensures offset < 0x8000 ==> r & 0xFFFF_FFFF == offset as bv64 && r >> 32 == pgno as bv64
    ensures offset >= 0x8000 ==> r == offset as bv64 | 0xFFFF_FFFF_FFFF_0000
  {
    // (long) pgno and (long) offset: copy the sign bit into the new high bits
    var u0: bv64 := if pgno < 0x8000_0000 then pgno as bv64 else pgno as bv64 | 0xFFFF_FFFF_0000_0000;
    var u1: bv64 := if offset < 0x8000 then offset as bv64 else offset as bv64 | 0xFFFF_FFFF_FFFF_0000;
    (u0 << 32) | u1
  }

  /** For a non-negative offset, the low 32 bits of the uid are the offset ... */
  lemma LowHalfIsOffset(pgno: bv32, offset: bv16)
    requires offset < 0x8000
    ensures AddressToUid(pgno, offset) & 0xFFFF_FFFF == offset as bv64
  {
  }

  /** ... and `uid >>> 32` is the page number's pattern. */
  lemma HighHalfIsPage(pgno: bv32, offset: bv16)
    requires offset < 0x8000
    ensures AddressToUid(pgno, offset) >> 32 == pgno as bv64
  {
  }

  /** Distinct addresses with non-negative offsets have distinct uids. */
  lemma UidInjective(p1: bv32, o1: bv16, p2: bv32, o2: bv16)
    requires o1 < 0x8000 && o2 < 0x8000
    requires AddressToUid(p1, o1) == AddressToUid(p2, o2)
    ensures p1 == p2 && o1 == o2
  {
    LowHalfIsOffset(p1, o1);
    LowHalfIsOffset(p2, o2);
    HighHalfIsPage(p1, o1);
    HighHalfIsPage(p2, o2);
  }

  /** A negative offset is sign-extended over the whole high half: the uid is the widened offset
      alone, so every page gives the same uid. */
  lemma NegativeOffsetLosesPage(pgno: bv32, offset: bv16)
    requires offset >= 0x8000
    ensures AddressToUid(pgno, offset) == offset as bv64 | 0xFFFF_FFFF_FFFF_0000
    ensures AddressToUid(pgno, offset) >> 32 == 0xFFFF_FFFF
    ensures forall other: bv32 :: AddressToUid(other, offset) == AddressToUid(pgno, offset)
  {
  }
}
