/**
 * The per-mount state the znode macros touch (include/os/macos/zfs/sys/zfs_znode_impl.h):
 * the object hold table (ZFS_OBJ_HASH, ZFS_OBJ_MUTEX, ZFS_OBJ_HOLD_*), the
 * teardown entry guards (ZFS_ENTER, ZFS_EXIT, ZFS_VERIFY_ZP) and the
 * access-time gate (ZFS_ACCESSTIME_STAMP).
 *
 * Locks are modelled sequentially: the teardown lock by the number of read
 * holds on it, each hold-table mutex by whether it is held.
 */
module ZnodeImpl {
  import opened Bits

  const EIO: int := 5

  /** VFS_RDONLY, the read-only bit of a mount's vfs_flag (MNT_RDONLY on macOS). */
  const VFS_RDONLY: uint64 := 1

  /** How a guard macro leaves the operation: fall through, or `return (errno)`. */
  datatype Guard = Proceed | Return(errno: int)

  datatype Option<T> = None | Some(value: T)

  /** The kind of timestamp update requested; only ACCESSED is issued here. */
  datatype TstampKind = Accessed

  /** One call of zfs_tstamp_update_setup_ext(zp, kind, NULL, NULL, haveTx). */
  datatype TstampUpdate = TstampUpdate(zp: Znode, kind: TstampKind, haveTx: bool)

  /** ZFS_OBJ_HASH: the bucket of z_hold_mtx for an object number. */
  function ObjHash(objNum: uint64, mtxSize: nat): (h: nat)
    requires PowerOfTwo(mtxSize)
    ensures h < mtxSize
    ensures h == objNum % mtxSize
  {
    LowMaskIsMod(objNum, Log2(mtxSize));
    BitAnd(objNum, mtxSize - 1)
  }

  /** Object numbers agree on their bucket exactly when they agree modulo the table size. */
  lemma SameBucketIffCongruent(a: uint64, b: uint64, mtxSize: nat)
    requires PowerOfTwo(mtxSize)
    ensures ObjHash(a, mtxSize) == ObjHash(b, mtxSize) <==> a % mtxSize == b % mtxSize
  {
  }

  /** Object numbers that differ by a multiple of the table size share a bucket. */
  lemma MultipleSameBucket(a: uint64, j: nat, mtxSize: nat)
    requires PowerOfTwo(mtxSize) && a + j * mtxSize <= UINT64_MAX
    ensures ObjHash(a + j * mtxSize, mtxSize) == ObjHash(a, mtxSize)
  {
    ModAddMultiple(a, j, mtxSize);
  }

  /**
   * ZFS_ACCESSTIME_STAMP's mount test: the vfs_flag has VFS_RDONLY set.
   * VFS_RDONLY is the lowest bit, so a mount is read-only exactly when its
   * flag word is odd.
   */
  predicate ReadOnly(vfsFlag: uint64): (ro: bool)
    ensures ro <==> vfsFlag % 2 == 1
  {
    BitAnd(vfsFlag, VFS_RDONLY) != 0
  }

  /** An opaque sa_handle_t; a znode's handle is null until its attributes are attached. */
  class SaHandle {
  }

  /** zfsvfs_t, restricted to the fields the macros use. */
  class Zfsvfs {
    /** Read holds on z_teardown_lock. */
    var teardownHolds: nat
    /** z_unmounted */
    var unmounted: bool
    /** ZFS_OBJ_MTX_SZ */
    const objMtxSize: nat
    /** z_hold_mtx: true where the mutex is held. */
    const holdMtx: array<bool>
    /** z_atime: access times are tracked on this mount. */
    var atime: bool
    /** z_vfs->vfs_flag */
    var vfsFlag: uint64

    predicate Valid()
    {
      PowerOfTwo(objMtxSize) && holdMtx.Length == objMtxSize
    }

    constructor (mtxSize: nat, atime: bool, vfsFlag: uint64)
      requires PowerOfTwo(mtxSize)
      ensures Valid() && objMtxSize == mtxSize && fresh(holdMtx)
      ensures forall i :: 0 <= i < holdMtx.Length ==> !holdMtx[i]
      ensures teardownHolds == 0 && !unmounted
      ensures this.atime == atime && this.vfsFlag == vfsFlag
    {
      teardownHolds := 0;
      unmounted := false;
      objMtxSize := mtxSize;
      holdMtx := new bool[mtxSize](_ => false);
      this.atime := atime;
      this.vfsFlag := vfsFlag;
    }

    /** ZFS_OBJ_MUTEX: the slot of z_hold_mtx that guards objNum, always in bounds. */
    function ObjMutex(objNum: uint64): (i: nat)
      requires Valid()
      ensures i < holdMtx.Length
      ensures i == objNum % objMtxSize
    {
      ObjHash(objNum, objMtxSize)
    }

    /** ZFS_OBJ_HOLD_ENTER: takes the bucket mutex of objNum; no other slot changes. */
    method ObjHoldEnter(objNum: uint64)
      requires Valid() && !holdMtx[ObjMutex(objNum)]
      modifies holdMtx
      ensures holdMtx[..] == old(holdMtx[..])[ObjMutex(objNum) := true]
    {
      holdMtx[ObjMutex(objNum)] := true;
    }

    /** ZFS_OBJ_HOLD_TRYENTER: takes the bucket mutex of objNum if it is free, and says whether it did. */
    method ObjHoldTryEnter(objNum: uint64) returns (acquired: bool)
      requires Valid()
      modifies holdMtx
      ensures acquired == !old(holdMtx[ObjMutex(objNum)])
      ensures holdMtx[..] == old(holdMtx[..])[ObjMutex(objNum) := true]
    {
      var i := ObjMutex(objNum);
      if holdMtx[i] {
        acquired := false;
      } else {
        holdMtx[i] := true;
        acquired := true;
      }
    }

    /** ZFS_OBJ_HOLD_EXIT: releases the bucket mutex of objNum; no other slot changes. */
    method ObjHoldExit(objNum: uint64)
      requires Valid() && holdMtx[ObjMutex(objNum)]
      modifies holdMtx
      ensures holdMtx[..] == old(holdMtx[..])[ObjMutex(objNum) := false]
    {
      holdMtx[ObjMutex(objNum)] := false;
    }

    /**
     * ZFS_ENTER: takes a read hold on the teardown lock; on an unmounted
     * file system it drops the hold again and returns EIO.
     */
    method ZfsEnter() returns (g: Guard)
      modifies this`teardownHolds
      ensures g == if unmounted then Return(EIO) else Proceed
      ensures teardownHolds == old(teardownHolds) + (if g.Proceed? then 1 else 0)
    {
      teardownHolds := teardownHolds + 1;
      if unmounted {
        ZfsExit();
        return Return(EIO);
      }
      return Proceed;
    }

    /** ZFS_EXIT: drops one read hold on the teardown lock. */
    method ZfsExit()
      requires teardownHolds > 0
      modifies this`teardownHolds
      ensures teardownHolds == old(teardownHolds) - 1
    {
      teardownHolds := teardownHolds - 1;
    }

    /**
     * ZFS_ACCESSTIME_STAMP: schedules an ACCESSED update of zp, outside any
     * transaction, when access times are tracked and the mount is writable.
     */
    method AccessTimeStamp(zp: Znode) returns (update: Option<TstampUpdate>)
      ensures update.Some? <==> atime && vfsFlag % 2 == 0
      ensures update.Some? ==> update.value == TstampUpdate(zp, Accessed, false)
    {
      if atime && !ReadOnly(vfsFlag) {
        update := Some(TstampUpdate(zp, Accessed, false));
      } else {
        update := None;
      }
    }
  }

  /** znode_t, restricted to the fields the macros use. */
  class Znode {
    /** z_zfsvfs */
    const zfsvfs: Zfsvfs
    /** z_sa_hdl */
    var saHdl: SaHandle?

    constructor (zfsvfs: Zfsvfs, saHdl: SaHandle?)
      ensures this.zfsvfs == zfsvfs && this.saHdl == saHdl
    {
      this.zfsvfs := zfsvfs;
      this.saHdl := saHdl;
    }

    /**
     * ZFS_VERIFY_ZP: a znode without an attribute handle makes the operation
     * drop its teardown hold and return EIO.
     */
    method VerifyZp() returns (g: Guard)
      requires zfsvfs.teardownHolds > 0
      modifies zfsvfs`teardownHolds
      ensures g == if saHdl == null then Return(EIO) else Proceed
      ensures zfsvfs.teardownHolds == old(zfsvfs.teardownHolds) - (if g.Proceed? then 0 else 1)
    {
      if saHdl == null {
        zfsvfs.ZfsExit();
        return Return(EIO);
      }
      return Proceed;
    }
  }

  /**
   * The prologue of a vnode operation on zp: ZFS_ENTER, then ZFS_VERIFY_ZP.
   * It proceeds only on a mounted file system and a valid znode, and then
   * holds exactly one more read hold; otherwise it returns EIO with the
   * hold count as it was.
   */
  method EnterVerified(zfsvfs: Zfsvfs, zp: Znode) returns (g: Guard)
    requires zp.zfsvfs == zfsvfs
    modifies zfsvfs`teardownHolds
    ensures g.Proceed? <==> !zfsvfs.unmounted && zp.saHdl != null
    ensures g.Return? ==> g.errno == EIO
    ensures zfsvfs.teardownHolds == old(zfsvfs.teardownHolds) + (if g.Proceed? then 1 else 0)
  {
    g := zfsvfs.ZfsEnter();
    if g.Return? {
      return;
    }
    g := zp.VerifyZp();
  }
}
