/**
 * The macOS-specific znode pflag bits and the link-count ceiling
 * (include/os/macos/zfs/sys/zfs_znode_impl.h, lines 47-57 and 81).
 */
module ZnodeFlags {
  import opened Bits

  const ZFS_UIMMUTABLE: uint64 := 0x0000001000000000
  const ZFS_UAPPENDONLY: uint64 := 0x0000004000000000
  const ZFS_TRACKED: uint64 := 0x0010000000000000
  const ZFS_COMPRESSED: uint64 := 0x0020000000000000
  const ZFS_SIMMUTABLE: uint64 := 0x0040000000000000
  const ZFS_SAPPENDONLY: uint64 := 0x0080000000000000

  /** The six OS-specific flags, in declaration order. */
  const OsFlags: seq<uint64> :=
    [ZFS_UIMMUTABLE, ZFS_UAPPENDONLY, ZFS_TRACKED, ZFS_COMPRESSED, ZFS_SIMMUTABLE, ZFS_SAPPENDONLY]

  /** The bit position of each flag in OsFlags. */
  const OsFlagBits: seq<nat> := [36, 38, 52, 53, 54, 55]

  const ZFS_LINK_MAX: uint64 := UINT64_MAX

  /** Each flag is the power of two at its position in OsFlagBits. */
  lemma OsFlagsAtTheirBits()
    ensures |OsFlags| == |OsFlagBits| == 6
    ensures forall i :: 0 <= i < 6 ==> OsFlags[i] == Pow2(OsFlagBits[i])
  {
    assert Pow2(2) == 4 && Pow2(4) == 16;
    Pow2Add(4, 4);
    assert Pow2(8) == 0x100;
    Pow2Add(8, 8);
    assert Pow2(16) == 0x1_0000;
    Pow2Add(16, 16);
    assert Pow2(32) == 0x1_0000_0000;
    Pow2Add(32, 4);
    assert Pow2(36) == ZFS_UIMMUTABLE;
    Pow2Add(36, 2);
    assert Pow2(38) == ZFS_UAPPENDONLY;
    Pow2Add(36, 16);
    assert Pow2(52) == ZFS_TRACKED;
    assert Pow2(53) == ZFS_COMPRESSED;
    assert Pow2(54) == ZFS_SIMMUTABLE;
    assert Pow2(55) == ZFS_SAPPENDONLY;
  }

  /** Every OS-specific flag is a single bit. */
  lemma OsFlagsAreSingleBits()
    ensures forall i :: 0 <= i < |OsFlags| ==> PowerOfTwo(OsFlags[i])
  {
    OsFlagsAtTheirBits();
    forall i | 0 <= i < |OsFlags|
      ensures PowerOfTwo(OsFlags[i])
    {
      Pow2IsPowerOfTwo(OsFlagBits[i]);
    }
  }

  /** No two OS-specific flags share a bit. */
  lemma OsFlagsPairwiseDisjoint()
    ensures forall i, j :: 0 <= i < |OsFlags| && 0 <= j < |OsFlags| && i != j ==>
      BitAnd(OsFlags[i], OsFlags[j]) == 0
  {
    OsFlagsAtTheirBits();
    forall i, j | 0 <= i < |OsFlags| && 0 <= j < |OsFlags| && i != j
      ensures BitAnd(OsFlags[i], OsFlags[j]) == 0
    {
      DistinctBitsDisjoint(OsFlagBits[i], OsFlagBits[j]);
    }
  }

  /** ZFS_LINK_MAX is 2^64 - 1, the largest uint64_t. */
  lemma LinkMaxIsUint64Max()
    ensures ZFS_LINK_MAX + 1 == Pow2(64)
  {
    assert Pow2(2) == 4 && Pow2(4) == 16;
    Pow2Add(4, 4);
    Pow2Add(8, 8);
    Pow2Add(16, 16);
    Pow2Add(32, 32);
    assert Pow2(32) == 0x1_0000_0000;
  }
}
