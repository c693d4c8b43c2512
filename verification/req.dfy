/**
 * Request sizing and lifetime (utils_req.c): the power-of-two allocator
 * buckets a request is taken from, the core-line range a request covers,
 * creating a request, dropping a reference to it and allocating its map.
 *
 * Sizes of C structures are named constants; allocation success is an
 * input, since the allocator itself is not part of this model.
 */
module Req {
  import Refcnt
  import opened Arith

  /** ocf_req_size_max: buckets for 1, 2, 4, ..., 128 lines. */
  const REQ_SIZE_MAX: nat := 8
  /** sizeof(struct ocf_request) and sizeof(struct ocf_map_info). */
  const REQUEST_SIZE: nat := 512
  const MAP_INFO_SIZE: nat := 64
  /** PARTITION_DEFAULT */
  const PARTITION_DEFAULT: nat := 0
  const EBUSY: int := 16
  const ENOMEM: int := 12
  const U32: nat := 0x1_0000_0000
  const U64: nat := 0x1_0000_0000_0000_0000

  // ---------------------------------------------------------------------
  // Bit arithmetic behind the bucket choice
  // ---------------------------------------------------------------------

  function Pow2(i: nat): (r: nat)
    ensures r >= 1
  {
    if i == 0 then 1 else 2 * Pow2(i - 1)
  }

  /** 31 - __builtin_clz(n): the index of the highest set bit. */
  function Log2Floor(n: nat): nat
    requires n >= 1
  {
    if n == 1 then 0 else 1 + Log2Floor(n / 2)
  }

  /** __builtin_ffs(n) - 1: the index of the lowest set bit. */
  function LowestSetBit(n: nat): nat
    requires n >= 1
  {
    if n % 2 == 1 then 0 else 1 + LowestSetBit(n / 2)
  }

  /** The highest set bit brackets n between two powers of two. */
  lemma {:induction false} Log2FloorBounds(n: nat)
    requires n >= 1
    ensures Pow2(Log2Floor(n)) <= n < Pow2(Log2Floor(n) + 1)
  {
    if n > 1 {
      Log2FloorBounds(n / 2);
    }
  }

  /** The lowest set bit is at or below the highest, and they coincide
      exactly for powers of two. */
  lemma {:induction false} LowestVsHighestBit(n: nat)
    requires n >= 1
    ensures LowestSetBit(n) <= Log2Floor(n)
    ensures LowestSetBit(n) == Log2Floor(n) <==> n == Pow2(Log2Floor(n))
  {
    if n % 2 == 1 {
      if n > 1 {
        assert Log2Floor(n) >= 1;
        assert Pow2(Log2Floor(n)) == 2 * Pow2(Log2Floor(n) - 1);
      }
    } else {
      LowestVsHighestBit(n / 2);
    }
  }

  // ---------------------------------------------------------------------
  // Allocator buckets and request size
  // ---------------------------------------------------------------------

  /** The bucket index _ocf_req_get_allocator computes: the highest set bit,
      plus one unless the lowest set bit is that same bit. */
  function BucketIndex(count: nat): nat
    requires 1 <= count < U32
  {
    var idx := Log2Floor(count);
    if LowestSetBit(count) + 1 <= idx then idx + 1 else idx
  }

  /** The bucket is ceil(log2(count)): the smallest power of two that holds
      `count` lines; powers of two get their own bucket. */
  lemma {:induction false} BucketIsCeilLog2(count: nat)
    requires 1 <= count < U32
    ensures count <= Pow2(BucketIndex(count))
    ensures BucketIndex(count) > 0 ==> Pow2(BucketIndex(count) - 1) < count
    ensures (exists k :: 0 <= k < 32 && count == Pow2(k)) ==> Pow2(BucketIndex(count)) == count
  {
    Log2FloorBounds(count);
    LowestVsHighestBit(count);
    if exists k :: 0 <= k < 32 && count == Pow2(k) {
      var k :| 0 <= k < 32 && count == Pow2(k);
      Pow2Log2(k);
    }
  }

  lemma {:induction false} Pow2Log2(k: nat)
    ensures Log2Floor(Pow2(k)) == k
  {
    if k > 0 {
      Pow2Log2(k - 1);
      assert Pow2(k) / 2 == Pow2(k - 1);
    }
  }

  /** _ocf_req_get_allocator: the bucket to allocate from, or None (NULL)
      when the request is too large for every bucket. */
  function GetAllocator(count: nat): (r: Option<nat>)
    requires 1 <= count < U32
  {
    var idx := BucketIndex(count);
    if idx >= REQ_SIZE_MAX then None else Some(idx)
  }

  /** Requests of up to 128 lines have a bucket, larger ones do not. */
  lemma {:induction false} GetAllocatorCap(count: nat)
    requires 1 <= count < U32
    ensures GetAllocator(count).Some? <==> count <= 128
    ensures GetAllocator(count).Some? ==> GetAllocator(count).value < REQ_SIZE_MAX
  {
    assert Pow2(1) == 2 && Pow2(2) == 4 && Pow2(3) == 8;
    assert Pow2(4) == 16 && Pow2(5) == 32 && Pow2(6) == 64 && Pow2(7) == 128;
    BucketIsCeilLog2(count);
    var idx := BucketIndex(count);
    if idx >= REQ_SIZE_MAX {
      Pow2Monotone(REQ_SIZE_MAX - 1, idx - 1);
    } else {
      Pow2Monotone(idx, REQ_SIZE_MAX - 1);
    }
  }

  lemma {:induction false} Pow2Monotone(i: nat, j: nat)
    requires i <= j
    ensures Pow2(i) <= Pow2(j)
    decreases j
  {
    if i < j {
      Pow2Monotone(i, j - 1);
    }
  }

  /** ocf_req_sizeof: a request with room for `lines` map entries. */
  function ReqSizeof(lines: nat): nat
    requires lines > 0
  {
    REQUEST_SIZE + lines * MAP_INFO_SIZE
  }

  /** A request taken from its bucket has room for all its map entries. */
  lemma BucketHoldsRequest(count: nat)
    requires 1 <= count < U32 && GetAllocator(count).Some?
    ensures ReqSizeof(Pow2(GetAllocator(count).value)) >= ReqSizeof(count)
  {
    BucketIsCeilLog2(count);
  }

  /** struct ocf_req_allocator after ocf_req_allocator_init. */
  class ReqAllocator {
    const size: array<nat>
    /** Whether allocator[i] is a live allocator (non-NULL). */
    const allocator: array<bool>

    constructor ()
      ensures size.Length == REQ_SIZE_MAX && allocator.Length == REQ_SIZE_MAX
      ensures fresh(size) && fresh(allocator)
    {
      size := new nat[REQ_SIZE_MAX];
      allocator := new bool[REQ_SIZE_MAX];
    }

    /** ocf_req_allocator_init: bucket i is sized for 1 << i lines; if
        creating an allocator fails, every allocator created so far is
        destroyed and -1 is returned.  `createOk[i]` says whether creating
        allocator i succeeds. */
    method Init(createOk: seq<bool>) returns (r: int)
      requires size.Length == REQ_SIZE_MAX && allocator.Length == REQ_SIZE_MAX
      requires size != allocator as object
      requires |createOk| == REQ_SIZE_MAX
      modifies size, allocator
      ensures r == 0 <==> forall i :: 0 <= i < REQ_SIZE_MAX ==> createOk[i]
      ensures r == 0 ==> forall i :: 0 <= i < REQ_SIZE_MAX ==> allocator[i] && size[i] == ReqSizeof(Pow2(i))
      ensures r != 0 ==> r == -1 && forall i :: 0 <= i < REQ_SIZE_MAX ==> !allocator[i]
    {
      var i := 0;
      while i < REQ_SIZE_MAX
        invariant 0 <= i <= REQ_SIZE_MAX
        invariant forall j :: 0 <= j < i ==> createOk[j] && allocator[j] && size[j] == ReqSizeof(Pow2(j))
      {
        size[i] := ReqSizeof(Pow2(i));
        allocator[i] := createOk[i];
        if !allocator[i] {
          Deinit();
          return -1;
        }
        i := i + 1;
      }
      r := 0;
    }

    /** ocf_req_allocator_deinit */
    method Deinit()
      requires allocator.Length == REQ_SIZE_MAX
      modifies allocator
      ensures forall i :: 0 <= i < REQ_SIZE_MAX ==> !allocator[i]
    {
      var i := 0;
      while i < REQ_SIZE_MAX
        invariant 0 <= i <= REQ_SIZE_MAX
        invariant forall j :: 0 <= j < i ==> !allocator[j]
      {
        allocator[i] := false;
        i := i + 1;
      }
    }
  }

  // ---------------------------------------------------------------------
  // The core-line range of a request
  // ---------------------------------------------------------------------

  datatype LineRange = LineRange(first: nat, last: nat, count: nat)

  /** The range computed in ocf_req_new: ocf_bytes_2_lines of the first
      and of the last byte; a zero-length request still covers one line. */
  function CoreLineRange(addr: nat, bytes: nat, lineSize: nat): LineRange
    requires lineSize > 0
  {
    if bytes > 0 then
      var first := addr / lineSize;
      var last := (addr + bytes - 1) / lineSize;
      LineRange(first, last, last - first + 1)
    else
      LineRange(addr / lineSize, addr / lineSize, 1)
  }

  /** The range spans at least one line, is counted inclusively, starts at
      the line of the first byte and contains the line of every byte the
      request touches; an empty request covers exactly its start line. */
  lemma {:induction false} CoreLineRangeSpec(addr: nat, bytes: nat, lineSize: nat)
    requires lineSize > 0
    ensures var r := CoreLineRange(addr, bytes, lineSize);
            r.first <= r.last && r.count == r.last - r.first + 1 && r.count >= 1 &&
            r.first == addr / lineSize &&
            (bytes == 0 ==> r.last == r.first && r.count == 1) &&
            (forall b :: addr <= b < addr + bytes ==> r.first <= b / lineSize <= r.last)
  {
    var r := CoreLineRange(addr, bytes, lineSize);
    if bytes > 0 {
      DivMonotone(addr, addr + bytes - 1, lineSize);
      forall b | addr <= b < addr + bytes
        ensures r.first <= b / lineSize <= r.last
      {
        DivMonotone(addr, b, lineSize);
        DivMonotone(b, addr + bytes - 1, lineSize);
      }
    }
  }

  // ---------------------------------------------------------------------
  // The request object
  // ---------------------------------------------------------------------

  /** struct ocf_request, the fields this model reads or writes. */
  class Request {
    var refCount: int
    var partId: nat
    var coreLineFirst: nat
    var coreLineLast: nat
    var coreLineCount: nat
    var allocCoreLineCount: nat
    var bytePosition: nat
    var byteLength: nat
    var rw: int
    /** req->map != NULL */
    var hasMap: bool
    /** the io queue is the cache's management queue */
    const mngtQueue: bool
    /** direct-to-core: the metadata reference could not be taken */
    var d2c: bool
    var error: int
    /** the request's memory has been given back to its allocator */
    var released: bool

    /** The fields ocf_req_new sets on a freshly allocated request. */
    constructor (mngt: bool, range: LineRange, addr: nat, bytes: nat, rwDir: int, embeddedMap: bool, direct: bool)
      requires 1 <= range.count < U32
      ensures Valid() && !released && error == 0
      ensures mngtQueue == mngt && refCount == 1 && partId == PARTITION_DEFAULT
      ensures coreLineFirst == range.first && coreLineLast == range.last
      ensures coreLineCount == range.count && allocCoreLineCount == range.count
      ensures bytePosition == addr && byteLength == bytes && rw == rwDir
      ensures hasMap == embeddedMap && d2c == direct
    {
      mngtQueue := mngt;
      refCount := 1;
      partId := PARTITION_DEFAULT;
      coreLineFirst, coreLineLast := range.first, range.last;
      coreLineCount, allocCoreLineCount := range.count, range.count;
      bytePosition, byteLength, rw := addr, bytes, rwDir;
      hasMap, d2c, error, released := embeddedMap, direct, 0, false;
    }

    ghost predicate Valid()
      reads this
    {
      1 <= allocCoreLineCount < U32 && refCount >= 0
    }

    /** ocf_req_alloc_map: idempotent once the map is set; `allocOk` says
        whether the allocation succeeds. */
    method AllocMap(allocOk: bool) returns (r: int)
      requires Valid()
      modifies this`hasMap, this`error
      ensures old(hasMap) ==> r == 0 && hasMap && error == old(error)
      ensures !old(hasMap) && allocOk ==> r == 0 && hasMap && error == old(error)
      ensures !old(hasMap) && !allocOk ==> r == -ENOMEM && !hasMap && error == -ENOMEM
    {
      if hasMap {
        return 0;
      }
      hasMap := allocOk;
      if !hasMap {
        error := -ENOMEM;
        return -ENOMEM;
      }
      r := 0;
    }

    /** ocf_req_get */
    method Get()
      requires Valid()
      modifies this`refCount
      ensures refCount == old(refCount) + 1
    {
      refCount := refCount + 1;
    }

    /** ocf_req_put: drop one reference; the last one gives back the
        metadata and io references the request holds and releases its
        memory.  Returns whether the request was released. */
    method Put(metadata: Refcnt.Counter, ioReq: Refcnt.Counter) returns (freed: bool)
      requires Valid() && refCount > 0 && !released
      requires metadata != ioReq
      requires metadata.Valid() && ioReq.Valid()
      requires refCount == 1 && !d2c ==> metadata.counter > 0
      requires refCount == 1 && !mngtQueue ==> ioReq.counter > 0
      modifies this`refCount, this`released, metadata, ioReq
      ensures refCount == old(refCount) - 1
      ensures freed <==> refCount == 0
      ensures released == freed
      ensures metadata.Valid() && ioReq.Valid()
      ensures metadata.State() ==
        if freed && !d2c then Refcnt.Dec(old(metadata.State())) else old(metadata.State())
      ensures ioReq.State() ==
        if freed && !mngtQueue then Refcnt.Dec(old(ioReq.State())) else old(ioReq.State())
    {
      refCount := refCount - 1;
      if refCount != 0 {
        return false;
      }
      if !d2c {
        metadata.DecRef();
      }
      if !mngtQueue {
        ioReq.DecRef();
      }
      released := true;
      freed := true;
    }
  }

  /** ocf_req_new.  `incRace`/`metaRace` stand for another context freezing
      the io / metadata counter during ocf_refcnt_inc, `allocOk` for the
      success of the allocation.  Status 0 with a fresh request, -EBUSY when
      the io counter is frozen, -ENOMEM when allocation fails.  With
      `asWritten` the failed allocation gives back an io reference on every
      queue, as the code does; otherwise only where one was taken (see the
      findings).  When that give-back would take the io count below 0, the
      ENV_BUG_ON of ocf_refcnt_dec fires: `bug` is set and the run stops
      with the count unchanged. */
  method New(mngtQueue: bool, addr: nat, bytes: nat, rw: int, lineSize: nat,
             ioReq: Refcnt.Counter, metadata: Refcnt.Counter,
             incRace: bool, metaRace: bool, allocOk: bool, asWritten: bool)
    returns (status: int, req: Request?, bug: bool)
    requires lineSize > 0 && addr + bytes <= U64
    requires CoreLineRange(addr, bytes, lineSize).count < U32
    requires ioReq != metadata && ioReq.Valid() && metadata.Valid()
    modifies ioReq, metadata
    ensures ioReq.Valid() && metadata.Valid()
    ensures status == 0 || status == -EBUSY || status == -ENOMEM
    ensures status == -EBUSY <==> !mngtQueue && !Refcnt.Inc(old(ioReq.State()), incRace).1
    ensures status == -ENOMEM <==> status != -EBUSY && !allocOk
    ensures bug <==> asWritten && mngtQueue && !allocOk && old(ioReq.counter) == 0
    ensures status != 0 ==> req == null && metadata.State() == old(metadata.State())
    ensures status == -EBUSY ==> ioReq.State() == Refcnt.Inc(old(ioReq.State()), incRace).0 &&
                                 ioReq.counter == old(ioReq.counter)
    ensures status == -ENOMEM ==>
              ioReq.State() == (if !mngtQueue then Refcnt.Dec(Refcnt.Inc(old(ioReq.State()), incRace).0)
                                else if asWritten && !bug then Refcnt.Dec(old(ioReq.State()))
                                else old(ioReq.State()))
    ensures status == -ENOMEM ==>
              ioReq.counter == old(ioReq.counter) - (if mngtQueue && asWritten && !bug then 1 else 0)
    ensures status == 0 ==>
              ioReq.State() == (if mngtQueue then old(ioReq.State()) else Refcnt.Inc(old(ioReq.State()), incRace).0) &&
              metadata.State() == Refcnt.Inc(old(metadata.State()), metaRace).0
    ensures status == 0 ==>
      req != null && fresh(req) && req.Valid() && !req.released &&
      req.refCount == 1 && req.partId == PARTITION_DEFAULT && req.mngtQueue == mngtQueue &&
      req.coreLineFirst == CoreLineRange(addr, bytes, lineSize).first &&
      req.coreLineLast == CoreLineRange(addr, bytes, lineSize).last &&
      req.coreLineCount == CoreLineRange(addr, bytes, lineSize).count &&
      req.allocCoreLineCount == req.coreLineCount &&
      req.bytePosition == addr && req.byteLength == bytes && req.rw == rw &&
      (req.hasMap <==> GetAllocator(req.coreLineCount).Some?) &&
      (req.d2c <==> !Refcnt.Inc(old(metadata.State()), metaRace).1)
    ensures status == 0 ==>
              (!req.d2c ==> metadata.counter == old(metadata.counter) + 1) &&
              (!mngtQueue ==> ioReq.counter == old(ioReq.counter) + 1)
  {
    req, bug := null, false;
    ghost var io0, meta0 := ioReq.State(), metadata.State();
    Refcnt.IncSucceedsIffUnfrozen(io0, incRace);
    Refcnt.IncSucceedsIffUnfrozen(meta0, metaRace);
    if !mngtQueue {
      var ok := ioReq.IncRef(incRace);
      if !ok {
        return -EBUSY, null, false;
      }
    }
    var range := CoreLineRange(addr, bytes, lineSize);
    var allocator := GetAllocator(range.count);
    if !allocOk {
      if asWritten || !mngtQueue {
        if ioReq.counter == 0 {
          // The ENV_BUG_ON of ocf_refcnt_dec: the run stops here.
          return -ENOMEM, null, true;
        }
        ioReq.DecRef();
      }
      return -ENOMEM, null, false;
    }
    var metaOk := metadata.IncRef(metaRace);
    req := new Request(mngtQueue, range, addr, bytes, rw, allocator.Some?, !metaOk);
    status := 0;
  }

  /** A request created and then put once gives back exactly the
      references ocf_req_new took: both counters end where they started. */
  method NewThenPut(mngtQueue: bool, addr: nat, bytes: nat, rw: int, lineSize: nat,
                    ioReq: Refcnt.Counter, metadata: Refcnt.Counter,
                    incRace: bool, metaRace: bool, allocOk: bool)
    returns (status: int, freed: bool)
    requires lineSize > 0 && addr + bytes <= U64
    requires CoreLineRange(addr, bytes, lineSize).count < U32
    requires ioReq != metadata && ioReq.Valid() && metadata.Valid()
    modifies ioReq, metadata
    ensures status == 0 ==> freed
    ensures ioReq.counter == old(ioReq.counter) && metadata.counter == old(metadata.counter)
  {
    var req, bug;
    freed := false;
    status, req, bug := New(mngtQueue, addr, bytes, rw, lineSize, ioReq, metadata, incRace, metaRace, allocOk, false);
    if status == 0 {
      freed := req.Put(metadata, ioReq);
    }
  }

  /** The failed allocation on the management queue, from an io counter
      holding one reference: as written the counter drops to 0 although
      ocf_req_new never took a reference there; with the give-back guarded
      like the increment it stays at 1.  From an idle io counter, the
      usual state while management has I/O frozen and drained, the
      give-back as written hits the ENV_BUG_ON of ocf_refcnt_dec, and the
      guarded one does not. */
  method NewFailureUnbalancedOnMngtQueue()
    returns (asWritten: int, intended: int, bugAtZero: bool, bugAtZeroIntended: bool)
    ensures asWritten == 0 && intended == 1
    ensures bugAtZero && !bugAtZeroIntended
  {
    var io := new Refcnt.Counter();
    var meta := new Refcnt.Counter();
    var ok := io.IncRef(false);
    var status, req, bug := New(true, 0, 4096, 0, 4096, io, meta, false, false, false, true);
    asWritten := io.counter;
    var io2 := new Refcnt.Counter();
    var meta2 := new Refcnt.Counter();
    ok := io2.IncRef(false);
    status, req, bug := New(true, 0, 4096, 0, 4096, io2, meta2, false, false, false, false);
    intended := io2.counter;
    var io3 := new Refcnt.Counter();
    var meta3 := new Refcnt.Counter();
    status, req, bugAtZero := New(true, 0, 4096, 0, 4096, io3, meta3, false, false, false, true);
    var io4 := new Refcnt.Counter();
    var meta4 := new Refcnt.Counter();
    status, req, bugAtZeroIntended := New(true, 0, 4096, 0, 4096, io4, meta4, false, false, false, false);
  }
}
