# ZFS znode macros on macOS, modelled in Dafny

This project models the sequential rules in the macOS OpenZFS header
`include/os/macos/zfs/sys/zfs_znode_impl.h`. It covers five things:

- **Object hold table.** `ZFS_OBJ_HASH` masks an object number down to a slot of
  the per-mount mutex array `z_hold_mtx`. `ZFS_OBJ_MUTEX`, `ZFS_OBJ_HOLD_ENTER`,
  `ZFS_OBJ_HOLD_TRYENTER` and `ZFS_OBJ_HOLD_EXIT` pick and use that slot.
- **Stored times.** `ZFS_TIME_ENCODE` and `ZFS_TIME_DECODE` convert between a
  `struct timespec` and the two `uint64_t` words kept in a znode.
- **Entry guards.** `ZFS_ENTER` opens every vnode and vfs operation. It takes a
  read hold on the mount's teardown lock. If the mount is unmounted, it drops
  the hold and returns `EIO`. `ZFS_EXIT` drops that hold before the operation
  returns. `ZFS_VERIFY_ZP` follows `ZFS_ENTER` in vnode operations. When the
  znode has no attribute handle, it drops the hold and returns `EIO`.
- **Access-time gate.** `ZFS_ACCESSTIME_STAMP` schedules an `ACCESSED` timestamp
  update.
- **Flag constants.** The macOS-specific pflag bits and `ZFS_LINK_MAX`.

Modules:

- `Bits` (`bits.dfy`): `uint64_t` as an integer in [0, 2^64). It defines C's
  `&` bit by bit (`BitAnd`), powers of two, and the facts the macros rely on,
  for example that masking with 2^k - 1 leaves the remainder modulo 2^k.
- `ZnodeFlags` (`znode_flags.dfy`): the flag constants and the facts about them.
- `ZfsTime` (`zfs_time.dfy`): `time_t` and `long` as signed 64-bit integers, the
  two's-complement casts, and encoding and decoding.
- `ZnodeImpl` (`znode_impl.dfy`): the mount (`Zfsvfs`) and znode (`Znode`)
  classes with the hold-table, guard and access-time operations.

Design decisions:

- **Locks are modelled sequentially.** The teardown lock is a count of read holds.
  Each `z_hold_mtx` entry is a boolean that says whether the mutex is held.
- **Words are integers, not bit-vectors.** A bucket index is used directly as an
  index into the mutex array, so words are bounded integers. C's `&` is defined
  bit by bit on naturals and is related to remainders by proof.
- **The table size is a parameter.** `ZFS_OBJ_MTX_SZ` is defined outside this
  header. It is the mount's `objMtxSize` field and must be a power of two.
- **`ZFS_OBJ_HASH` applies no hash function.** Despite its name, it masks the
  object number directly, and the model does the same.
- **`VFS_RDONLY` is the value 1.** It is not defined in this header. It is
  macOS's `MNT_RDONLY`, the lowest bit of `vfs_flag`.

## Model

| member | source | states |
|---|---|---|
| `Bits.BitAnd` | include/os/macos/zfs/sys/zfs_znode_impl.h:160 | C's `&` on unsigned words never exceeds either operand |
| `Bits.LowMaskIsMod` | include/os/macos/zfs/sys/zfs_znode_impl.h:160 | masking with `2^k - 1` yields exactly the remainder modulo `2^k` |
| `Bits.Log2` | include/os/macos/zfs/sys/zfs_znode_impl.h:160 | proof helper of `ObjHash`, not computed by the macro: gives the `k` with `2^k` equal to the power-of-two table size, so that `LowMaskIsMod` applies |
| `Bits.DistinctBitsDisjoint` | include/os/macos/zfs/sys/zfs_znode_impl.h:47-57 | two different single bits have an empty `&` |
| `ZnodeFlags.OsFlagsAtTheirBits` | include/os/macos/zfs/sys/zfs_znode_impl.h:47-57 | each of the six flags is `2^k` for bits 36, 38, 52, 53, 54, 55 |
| `ZnodeFlags.OsFlagsAreSingleBits` | include/os/macos/zfs/sys/zfs_znode_impl.h:47-57 | `ZFS_UIMMUTABLE`, `ZFS_UAPPENDONLY`, `ZFS_TRACKED`, `ZFS_COMPRESSED`, `ZFS_SIMMUTABLE`, `ZFS_SAPPENDONLY` each have exactly one bit set |
| `ZnodeFlags.OsFlagsPairwiseDisjoint` | include/os/macos/zfs/sys/zfs_znode_impl.h:47-57 | no two of the six flags share a bit |
| `ZnodeFlags.LinkMaxIsUint64Max` | include/os/macos/zfs/sys/zfs_znode_impl.h:81 | `ZFS_LINK_MAX + 1 == 2^64`, so it is `UINT64_MAX` |
| `ZnodeImpl.ObjHash` | include/os/macos/zfs/sys/zfs_znode_impl.h:160 | for a power-of-two size the bucket is below the size and equals `obj_num % ZFS_OBJ_MTX_SZ` |
| `ZnodeImpl.SameBucketIffCongruent` | include/os/macos/zfs/sys/zfs_znode_impl.h:160 | two object numbers share a bucket if and only if they are congruent modulo the table size |
| `ZnodeImpl.MultipleSameBucket` | include/os/macos/zfs/sys/zfs_znode_impl.h:160-162 | object numbers that differ by a multiple of the table size map to the same bucket |
| `ZnodeImpl.Zfsvfs.ObjMutex` | include/os/macos/zfs/sys/zfs_znode_impl.h:161-162 | the selected `z_hold_mtx` slot is in bounds and is `obj_num` modulo the table size |
| `ZnodeImpl.Zfsvfs.ObjHoldEnter` | include/os/macos/zfs/sys/zfs_znode_impl.h:163-164 | the slot of `obj_num` becomes held and every other slot is unchanged |
| `ZnodeImpl.Zfsvfs.ObjHoldTryEnter` | include/os/macos/zfs/sys/zfs_znode_impl.h:165-166 | returns true exactly when the slot was free; afterwards the slot is held and no other slot changed |
| `ZnodeImpl.Zfsvfs.ObjHoldExit` | include/os/macos/zfs/sys/zfs_znode_impl.h:167-168 | the slot of `obj_num` becomes free and every other slot is unchanged |
| `ZnodeImpl.Zfsvfs.ZfsEnter` | include/os/macos/zfs/sys/zfs_znode_impl.h:138-145 | on an unmounted file system returns `EIO` with the hold count unchanged; otherwise proceeds with exactly one more read hold |
| `ZnodeImpl.Zfsvfs.ZfsExit` | include/os/macos/zfs/sys/zfs_znode_impl.h:148 | removes exactly one read hold |
| `ZnodeImpl.Znode.VerifyZp` | include/os/macos/zfs/sys/zfs_znode_impl.h:151-155 | a null `z_sa_hdl` returns `EIO` and drops one hold; a non-null one proceeds with the hold kept |
| `ZnodeImpl.EnterVerified` | include/os/macos/zfs/sys/zfs_znode_impl.h:137-155 | `ZFS_ENTER` followed by `ZFS_VERIFY_ZP` proceeds if and only if the mount is live and the handle non-null; it then holds one more hold, and otherwise returns `EIO` with the net hold count unchanged |
| `ZnodeImpl.ReadOnly` | include/os/macos/zfs/sys/zfs_znode_impl.h:184 | the mount is read-only when `vfs_flag & VFS_RDONLY` is non-zero, which with `VFS_RDONLY = 1` is exactly when the flag word is odd |
| `ZnodeImpl.Zfsvfs.AccessTimeStamp` | include/os/macos/zfs/sys/zfs_znode_impl.h:183-185 | an `ACCESSED` update of `zp` without a transaction is scheduled if and only if `z_atime` is set and the read-only bit of `vfs_flag` is clear |
| `ZfsTime.ToUint64` | include/os/macos/zfs/sys/zfs_znode_impl.h:173-174 | `(uint64_t)` of a signed value is the word congruent to it modulo 2^64; non-negative values are unchanged |
| `ZfsTime.ToInt64` | include/os/macos/zfs/sys/zfs_znode_impl.h:180-181 | `(time_t)` and `(long)` of a word give the signed value congruent to it modulo 2^64; words up to `INT64_MAX` are unchanged |
| `ZfsTime.SignedRoundTrip` | include/os/macos/zfs/sys/zfs_znode_impl.h:173-181 | casting a signed 64-bit value to `uint64_t` and back gives it back |
| `ZfsTime.UnsignedRoundTrip` | include/os/macos/zfs/sys/zfs_znode_impl.h:173-181 | casting a word to signed and back gives it back |
| `ZfsTime.Encoded` | include/os/macos/zfs/sys/zfs_znode_impl.h:171-175 | the stored form is two words, which decode back to `tv_sec` and `tv_nsec` |
| `ZfsTime.TimeDecode` | include/os/macos/zfs/sys/zfs_znode_impl.h:177-182 | the decoded timespec is the one whose encoding is the first two stored words |
| `ZfsTime.DecodeEncode` | include/os/macos/zfs/sys/zfs_znode_impl.h:171-182 | decoding an encoded timespec restores `tv_sec` and `tv_nsec`, for every 64-bit value |
| `ZfsTime.EncodeDecode` | include/os/macos/zfs/sys/zfs_znode_impl.h:171-182 | encoding a decoded pair of words restores the words |
| `ZfsTime.InRangeStoredVerbatim` | include/os/macos/zfs/sys/zfs_znode_impl.h:171-175 | with non-negative seconds and `0 <= tv_nsec < 10^9`, the words are the numbers themselves |
| `ZfsTime.TimeEncode` | include/os/macos/zfs/sys/zfs_znode_impl.h:171-175 | writes exactly `stmp[0]` and `stmp[1]`, leaves the rest of the array alone, and the result decodes to the input |

## Left out

- Reader-writer and mutex semantics (`rrm_enter_read`, `rrm_exit`, `mutex_enter`, `mutex_tryenter`). Waiting, fairness and unmount draining concern concurrency over primitives that are not part of this model. Only hold counts and the held or free state of each slot are modelled.
- ZnodeImpl.Zfsvfs.ObjHoldEnter: requires its slot to be free. Blocking until another thread releases it is not modelled.
- ZnodeImpl.Zfsvfs.ZfsEnter: never waits. The model does not capture `rrm_enter_read` blocking behind an unmount that holds the lock for writing.
- Range locking (lines 100-114). It is a comment describing caller discipline, and the range-lock manager and the size compare-and-swap loop are not part of this model.
- Znode/vnode conversion and reference counting (`ZTOV`, `VTOZ`, `zhold`, `zrele`, `ITOZSB`, `ZTOTYPE` and the other accessors, lines 116-134). They are thin wrappers over macOS kernel calls that are not part of this model.
- Struct layout and device bookkeeping (`ZNODE_OS_FIELDS`, `zfs_soft_state`, `zfsdev_minor_alloc`, lines 62-98). They have no behaviour here. Only the fields the macros read are modelled.
- Extern declarations (lines 187-196). Their bodies are not part of this model. `zfs_tstamp_update_setup_ext` appears only as the returned `TstampUpdate` event.
- `SA_ZPL_ADDTIME` and `SA_ZPL_DOCUMENTID` (lines 59-60). They index an external attribute table.
- The commented-out `ZFS_IMMUTABLE` and `ZFS_APPENDONLY` (lines 50-51). They are not compiled.
- Mount creation. `z_hold_mtx` and the teardown lock are set up outside this header. The `Zfsvfs` constructor only supplies a fresh mount with every slot free.
- ZfsTime.ToInt64: converting a word above `INT64_MAX` to a signed type is implementation-defined in C. It is modelled as the two's-complement wrap that the macOS compilers perform.
