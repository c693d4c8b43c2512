/**
 * The superblock of the cache metadata (metadata_superblock.c): validation
 * of a superblock read from the cache device, the bounds check run after a
 * load, the flapping index that alternates between two metadata copies, the
 * per-segment checksums it stores, and the restore of backed-up segments
 * after a failed load.
 *
 * Constants that live in headers not part of this model are named constants
 * below; the proofs do not depend on their values.
 */
module Superblock {
  import opened Arith

  /** CACHE_MAGIC_NUMBER */
  const CACHE_MAGIC_NUMBER: int := 0x187E1CA6
  /** ocf_metadata_layout_max (striping, sequential) */
  const METADATA_LAYOUT_MAX: int := 2
  /** ocf_cache_mode_max (wt, wb, wa, pt, wi, wo) */
  const CACHE_MODE_MAX: int := 6
  /** ocf_metadata_clean_shutdown (dirty shutdown is 0) */
  const CLEAN_SHUTDOWN: nat := 1
  /** DIRTY_FLUSHED (DIRTY_NOT_FLUSHED is 0) */
  const DIRTY_FLUSHED: nat := 1
  /** OCF_CORE_MAX */
  const CORE_MAX: nat := 4096
  /** OCF_USER_IO_CLASS_MAX */
  const USER_IO_CLASS_MAX: nat := 32
  /** metadata_segment_sb_config, the first segment */
  const SEGMENT_SB_CONFIG: nat := 0

  const U32: int := 0x1_0000_0000

  /** The negative OCF error codes these functions return, by name. */
  datatype Status = Ok | ErrNoMetadata | ErrMetadataVer | ErrInval

  /** struct ocf_superblock_config, the fields this model reads or writes.
      `metadataLayout` and `cacheMode` are signed enums in the C code,
      the other counters unsigned. */
  datatype SbConfig = SbConfig(
    magicNumber: int,
    metadataVersion: int,
    lineSize: int,
    metadataLayout: int,
    cacheMode: int,
    cleanShutdown: nat,
    dirtyFlushed: nat,
    coreCount: nat,
    validPartsNo: nat,
    flappingIdx: nat,
    checksum: seq<nat>)

  /** ocf_cache_line_size_is_valid: 4, 8, 16, 32 or 64 KiB. */
  predicate LineSizeIsValid(size: int)
  {
    size == 4096 || size == 8192 || size == 16384 || size == 32768 || size == 65536
  }

  /** The `(unsigned)` cast of a 32-bit signed value. */
  function AsUnsigned(x: int): (r: nat)
    ensures r < U32
    ensures 0 <= x < U32 ==> r == x
    ensures x < 0 && -U32 <= x ==> r == x + U32
  {
    x % U32
  }

  // ---------------------------------------------------------------------
  // Validation
  // ---------------------------------------------------------------------

  /** ocf_metadata_validate_superblock: a chain of checks where the first
      failure decides the code.  `version` is METADATA_VERSION(). */
  function Validate(sb: SbConfig, version: int): Status
  {
    if sb.magicNumber != CACHE_MAGIC_NUMBER then ErrNoMetadata
    else if version != sb.metadataVersion then ErrMetadataVer
    else if !LineSizeIsValid(sb.lineSize) then ErrInval
    else if AsUnsigned(sb.metadataLayout) >= METADATA_LAYOUT_MAX then ErrInval
    else if sb.cacheMode >= CACHE_MODE_MAX then ErrInval
    else if sb.cleanShutdown > CLEAN_SHUTDOWN then ErrInval
    else if sb.dirtyFlushed > DIRTY_FLUSHED then ErrInval
    else Ok
  }

  /** One check of the validator: whether it passes and the code it yields
      when it does not. */
  datatype Check = Check(passes: bool, onFailure: Status)

  /** The validator's checks, in the order they are made. */
  function Checks(sb: SbConfig, version: int): (cs: seq<Check>)
    ensures |cs| == 7
  {
    [ Check(sb.magicNumber == CACHE_MAGIC_NUMBER, ErrNoMetadata),
      Check(version == sb.metadataVersion, ErrMetadataVer),
      Check(LineSizeIsValid(sb.lineSize), ErrInval),
      Check(AsUnsigned(sb.metadataLayout) < METADATA_LAYOUT_MAX, ErrInval),
      Check(sb.cacheMode < CACHE_MODE_MAX, ErrInval),
      Check(sb.cleanShutdown <= CLEAN_SHUTDOWN, ErrInval),
      Check(sb.dirtyFlushed <= DIRTY_FLUSHED, ErrInval) ]
  }

  /** The code of the first failing check, Ok when all pass. */
  function FirstFailure(cs: seq<Check>): Status
  {
    if cs == [] then Ok
    else if !cs[0].passes then cs[0].onFailure
    else FirstFailure(cs[1..])
  }

  /** FirstFailure reports Ok exactly when every check passes, and otherwise
      the code of a failing check preceded only by passing ones. */
  lemma {:induction false} FirstFailureSpec(cs: seq<Check>)
    requires forall i :: 0 <= i < |cs| ==> cs[i].onFailure != Ok
    ensures FirstFailure(cs) == Ok <==> forall i :: 0 <= i < |cs| ==> cs[i].passes
    ensures FirstFailure(cs) != Ok ==>
      exists k :: 0 <= k < |cs| && !cs[k].passes && FirstFailure(cs) == cs[k].onFailure &&
        forall j :: 0 <= j < k ==> cs[j].passes
  {
    if cs != [] && cs[0].passes {
      FirstFailureSpec(cs[1..]);
      if FirstFailure(cs) != Ok {
        var k :| 0 <= k < |cs[1..]| && !cs[1..][k].passes && FirstFailure(cs[1..]) == cs[1..][k].onFailure &&
          forall j :: 0 <= j < k ==> cs[1..][j].passes;
        assert !cs[k + 1].passes && forall j :: 0 <= j < k + 1 ==> cs[j].passes;
      }
    }
  }

  /** The validator is the first-failure rule over its ordered checks: it
      accepts exactly the superblocks passing every check, it reports a
      missing magic number before anything else, a version mismatch before
      any field check, and -OCF_ERR_INVAL for every field check. */
  lemma ValidateIsFirstFailure(sb: SbConfig, version: int)
    ensures Validate(sb, version) == FirstFailure(Checks(sb, version))
    ensures Validate(sb, version) == Ok <==> forall i :: 0 <= i < 7 ==> Checks(sb, version)[i].passes
    ensures sb.magicNumber != CACHE_MAGIC_NUMBER ==> Validate(sb, version) == ErrNoMetadata
    ensures sb.magicNumber == CACHE_MAGIC_NUMBER && version != sb.metadataVersion ==>
              Validate(sb, version) == ErrMetadataVer
    ensures sb.magicNumber == CACHE_MAGIC_NUMBER && version == sb.metadataVersion ==>
              Validate(sb, version) in {Ok, ErrInval}
  {
    var cs := Checks(sb, version);
    FirstFailureSpec(cs);
    forall k | 0 <= k < 7
      ensures FirstFailure(cs[k..]) == if cs[k].passes then FirstFailure(cs[k + 1..]) else cs[k].onFailure
    {
      assert cs[k..][0] == cs[k] && cs[k..][1..] == cs[k + 1..];
    }
    assert FirstFailure(cs[7..]) == Ok;
    assert FirstFailure(cs[6..]) == if cs[6].passes then Ok else cs[6].onFailure;
    assert FirstFailure(cs[5..]) == if cs[5].passes then FirstFailure(cs[6..]) else cs[5].onFailure;
    assert FirstFailure(cs[4..]) == if cs[4].passes then FirstFailure(cs[5..]) else cs[4].onFailure;
    assert FirstFailure(cs[3..]) == if cs[3].passes then FirstFailure(cs[4..]) else cs[3].onFailure;
    assert FirstFailure(cs[2..]) == if cs[2].passes then FirstFailure(cs[3..]) else cs[2].onFailure;
    assert FirstFailure(cs[1..]) == if cs[1].passes then FirstFailure(cs[2..]) else cs[1].onFailure;
    assert FirstFailure(cs[0..]) == if cs[0].passes then FirstFailure(cs[1..]) else cs[0].onFailure;
    assert cs[0..] == cs;
  }

  /** ocf_metadata_load_superblock_post: a loaded superblock must not claim
      more cores or more valid IO classes than the cache supports. */
  function LoadPostCheck(sb: SbConfig): (r: Status)
    ensures r == Ok <==> sb.coreCount <= CORE_MAX && sb.validPartsNo <= USER_IO_CLASS_MAX
    ensures r == Ok || r == ErrInval
  {
    if sb.coreCount > CORE_MAX then ErrInval
    else if sb.validPartsNo > USER_IO_CLASS_MAX then ErrInval
    else Ok
  }

  // ---------------------------------------------------------------------
  // Flapping index, checksums, shutdown status
  // ---------------------------------------------------------------------

  /** ocf_metadata_superblock_get_next_flapping_idx */
  function NextFlappingIdx(sb: SbConfig): nat
  {
    (sb.flappingIdx + 1) % 2
  }

  /** The index the failed-flush path stores: (idx - 1) % 2 on an unsigned
      32-bit field, so 0 wraps to 0xFFFFFFFF first. */
  function PrevFlappingIdx(idx: nat): nat
    requires idx < U32
  {
    ((idx - 1) % U32) % 2
  }

  /** Flapping alternates between the two metadata copies, and the rollback
      of a failed flush undoes the flap step for either copy. */
  lemma {:induction false} FlapRollbackRestores(idx: nat)
    requires idx < 2
    ensures (idx + 1) % 2 != idx && (idx + 1) % 2 < 2
    ensures PrevFlappingIdx((idx + 1) % 2) == idx
  {
    if idx == 0 {
      assert (1 - 1) % U32 == 0;
    } else {
      assert (0 - 1) % U32 == U32 - 1;
    }
  }

  /** The rollback, had the field been a signed int: C's remainder truncates
      toward zero, so from index 0 it would store -1, not 1. */
  function PrevFlappingIdxSigned(idx: int): int
  {
    var d := idx - 1;
    if d >= 0 then d % 2 else -((-d) % 2)
  }

  lemma SignedRollbackWouldNotRestore()
    ensures PrevFlappingIdxSigned((0 + 1) % 2) == 0
    ensures PrevFlappingIdxSigned((1 + 1) % 2) == -1
  {
  }

  /** ocf_metadata_superblock_get_checksum */
  function GetChecksum(sb: SbConfig, segment: nat): nat
    requires segment < |sb.checksum|
  {
    sb.checksum[segment]
  }

  /** ocf_metadata_superblock_set_checksum, as a value update */
  function WithChecksum(sb: SbConfig, segment: nat, csum: nat): SbConfig
    requires segment < |sb.checksum|
  {
    sb.(checksum := sb.checksum[segment := csum])
  }

  /** Setting a segment's checksum is read back by get_checksum, leaves the
      other segments' checksums and every other field alone. */
  lemma ChecksumGetSet(sb: SbConfig, segment: nat, csum: nat, other: nat)
    requires segment < |sb.checksum| && other < |sb.checksum|
    ensures GetChecksum(WithChecksum(sb, segment, csum), segment) == csum
    ensures other != segment ==> GetChecksum(WithChecksum(sb, segment, csum), other) == GetChecksum(sb, other)
    ensures WithChecksum(sb, segment, csum).(checksum := sb.checksum) == sb
  {
  }

  /** Setting a valid shutdown status keeps a valid superblock valid: the
      magic number is rewritten, no field check can start failing. */
  lemma {:induction false} ShutdownStatusKeepsValid(sb: SbConfig, version: int, status: nat)
    requires Validate(sb, version) == Ok && status <= CLEAN_SHUTDOWN
    ensures Validate(sb.(cleanShutdown := status, magicNumber := CACHE_MAGIC_NUMBER), version) == Ok
    ensures Validate(sb.(cleanShutdown := status, magicNumber := CACHE_MAGIC_NUMBER), version + 1) == ErrMetadataVer
  {
  }

  /** The superblock config segment in memory, updated in place. */
  class SuperblockMem {
    var sb: SbConfig

    constructor (initial: SbConfig)
      ensures sb == initial
    {
      sb := initial;
    }

    /** ocf_metadata_superblock_get_flapping_idx */
    function GetFlappingIdx(): nat
      reads this
    {
      sb.flappingIdx
    }

    /** ocf_metadata_set_shutdown_status before the flush it starts. */
    method SetShutdownStatus(status: nat)
      modifies this
      ensures sb == old(sb).(cleanShutdown := status, magicNumber := CACHE_MAGIC_NUMBER)
      ensures Validate(sb, sb.metadataVersion) != ErrNoMetadata
    {
      sb := sb.(cleanShutdown := status);
      sb := sb.(magicNumber := CACHE_MAGIC_NUMBER);
    }

    /** ocf_metadata_superblock_set_checksum */
    method SetChecksum(segment: nat, csum: nat)
      requires segment < |sb.checksum|
      modifies this
      ensures sb == WithChecksum(old(sb), segment, csum)
    {
      sb := sb.(checksum := sb.checksum[segment := csum]);
    }

    /** ocf_metadata_flush_superblock_flap */
    method FlapStep()
      modifies this
      ensures sb == old(sb).(flappingIdx := NextFlappingIdx(old(sb)))
      ensures sb.flappingIdx < 2
    {
      sb := sb.(flappingIdx := (sb.flappingIdx + 1) % 2);
    }

    /** The flapping rollback of ocf_metadata_flush_superblock_finish on
        error. */
    method FlapRollback()
      requires sb.flappingIdx < U32
      modifies this
      ensures sb == old(sb).(flappingIdx := PrevFlappingIdx(old(sb.flappingIdx)))
      ensures sb.flappingIdx < 2
    {
      sb := sb.(flappingIdx := ((sb.flappingIdx - 1) % U32) % 2);
    }
  }

  // ---------------------------------------------------------------------
  // Backup and restore of segments around a load
  // ---------------------------------------------------------------------

  /** The segment copies ocf_metadata_store_segment takes before a load:
      the segments in `stored` are copied, the others have no copy. */
  function Backup(mem: seq<seq<bv8>>, stored: set<nat>): (copies: seq<Option<seq<bv8>>>)
    ensures |copies| == |mem|
  {
    seq(|mem|, i requires 0 <= i < |mem| => if i in stored then Some(mem[i]) else None)
  }

  /** What ocf_metadata_load_sb_restore leaves in memory: segments below
      `fixedMax` that have a copy get it back, the others keep their
      contents. */
  function Restored(mem: seq<seq<bv8>>, copies: seq<Option<seq<bv8>>>, fixedMax: nat): (r: seq<seq<bv8>>)
    requires |copies| == |mem|
    ensures |r| == |mem|
  {
    seq(|mem|, i requires 0 <= i < |mem| =>
      if SEGMENT_SB_CONFIG <= i < fixedMax && copies[i].Some? then copies[i].value else mem[i])
  }

  /** Restoring after a failed load undoes whatever the load wrote to the
      backed-up segments and leaves every other segment as the load left
      it. */
  lemma RestoreUndoesLoad(before: seq<seq<bv8>>, after: seq<seq<bv8>>, stored: set<nat>, fixedMax: nat, i: nat)
    requires |after| == |before| && i < |before|
    requires forall s :: s in stored ==> s < fixedMax
    ensures i in stored ==> Restored(after, Backup(before, stored), fixedMax)[i] == before[i]
    ensures i !in stored ==> Restored(after, Backup(before, stored), fixedMax)[i] == after[i]
  {
  }

  /** ocf_metadata_load_sb_restore: copy every saved segment back over the
      segment's memory pool; segments without a copy are skipped. */
  method LoadSbRestore(mem: array<seq<bv8>>, copies: seq<Option<seq<bv8>>>, fixedMax: nat)
    requires |copies| == mem.Length && fixedMax <= mem.Length
    modifies mem
    ensures mem[..] == Restored(old(mem[..]), copies, fixedMax)
  {
    var segment := SEGMENT_SB_CONFIG;
    while segment < fixedMax
      invariant SEGMENT_SB_CONFIG <= segment <= fixedMax
      invariant forall i :: 0 <= i < mem.Length ==>
        mem[i] == (if i < segment && copies[i].Some? then copies[i].value else old(mem[i]))
    {
      if copies[segment].Some? {
        mem[segment] := copies[segment].value;
      }
      segment := segment + 1;
    }
  }
}
