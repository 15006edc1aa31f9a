/**
 * Stored time values (ZFS_TIME_ENCODE / ZFS_TIME_DECODE,
 * include/os/macos/zfs/sys/zfs_znode_impl.h, lines 170-182).
 *
 * On macOS both `time_t` and `long` are signed 64-bit, and the stored form
 * is a pair of `uint64_t` words. The casts between them are the
 * two's-complement reinterpretations of the same 64 bits.
 */
module ZfsTime {
  import opened Bits

  const TWO_TO_64: int := 0x1_0000_0000_0000_0000
  const INT64_MIN: int := -0x8000_0000_0000_0000
  const INT64_MAX: int := 0x7FFF_FFFF_FFFF_FFFF
  const NANOSEC: int := 1_000_000_000

  /** `time_t` and `long` */
  type int64 = x: int | INT64_MIN <= x <= INT64_MAX

  /** struct timespec */
  datatype Timespec = Timespec(tvSec: int64, tvNsec: int64)

  /** A timespec as the kernel produces it: seconds since the epoch, nanoseconds below a second. */
  predicate InRange(tp: Timespec)
  {
    tp.tvSec >= 0 && 0 <= tp.tvNsec < NANOSEC
  }

  /** `(uint64_t)x`: the unsigned word congruent to x modulo 2^64. */
  function ToUint64(x: int64): (u: uint64)
    ensures (u - x) % TWO_TO_64 == 0
    ensures x >= 0 ==> u == x
  {
    if x < 0 then x + TWO_TO_64 else x
  }

  /** `(time_t)u` and `(long)u`: the signed value congruent to u modulo 2^64. */
  function ToInt64(u: uint64): (x: int64)
    ensures (u - x) % TWO_TO_64 == 0
    ensures u <= INT64_MAX ==> x == u
  {
    if u <= INT64_MAX then u else u - TWO_TO_64
  }

  lemma SignedRoundTrip(x: int64)
    ensures ToInt64(ToUint64(x)) == x
  {
  }

  lemma UnsignedRoundTrip(u: uint64)
    ensures ToUint64(ToInt64(u)) == u
  {
  }

  /** The two words ZFS_TIME_ENCODE stores for tp. */
  function Encoded(tp: Timespec): (stmp: seq<uint64>)
    ensures |stmp| == 2
    ensures ToInt64(stmp[0]) == tp.tvSec && ToInt64(stmp[1]) == tp.tvNsec
  {
    [ToUint64(tp.tvSec), ToUint64(tp.tvNsec)]
  }

  /** ZFS_TIME_DECODE: the timespec whose encoding is the first two words of stmp. */
  function TimeDecode(stmp: seq<uint64>): (tp: Timespec)
    requires |stmp| >= 2
    ensures Encoded(tp) == stmp[..2]
  {
    Timespec(ToInt64(stmp[0]), ToInt64(stmp[1]))
  }

  /** Decoding an encoded time gives the original back, for every 64-bit timespec. */
  lemma DecodeEncode(tp: Timespec)
    ensures TimeDecode(Encoded(tp)) == tp
  {
  }

  /** Encoding a decoded pair gives the same two words back. */
  lemma EncodeDecode(stmp: seq<uint64>)
    requires |stmp| == 2
    ensures Encoded(TimeDecode(stmp)) == stmp
  {
  }

  /** A time in the kernel's range is stored verbatim: no word wraps. */
  lemma InRangeStoredVerbatim(tp: Timespec)
    requires InRange(tp)
    ensures Encoded(tp) == [tp.tvSec as uint64, tp.tvNsec as uint64]
    ensures Encoded(tp)[1] < NANOSEC
  {
  }

  /** ZFS_TIME_ENCODE: writes stmp[0] and stmp[1] and nothing else. */
  method TimeEncode(tp: Timespec, stmp: array<uint64>)
    requires stmp.Length >= 2
    modifies stmp
    ensures stmp[..2] == Encoded(tp)
    ensures stmp[2..] == old(stmp[2..])
    ensures TimeDecode(stmp[..]) == tp
  {
    stmp[0] := ToUint64(tp.tvSec);
    stmp[1] := ToUint64(tp.tvNsec);
  }
}
