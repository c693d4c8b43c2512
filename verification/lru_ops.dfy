// The operations of src/ocf_lru.c built on the victim loops: assigning
// lines to a request (ocf_lru_req_clines), collecting a cleaning batch
// (ocf_lru_clean with its getter and completion), and the eviction
// back-pressure check (ocf_lru_can_evict).
module LruOps {
  import opened LruList
  import opened LruBits
  import opened Lru
  import opened LruIter
  import opened Refcnt

  // ---------------------------------------------------------------------
  // The request map
  // ---------------------------------------------------------------------

  /** The lookup status of a request map slot. */
  datatype LookupStatus = LookupHit | LookupMiss | LookupInserted | LookupRemapped

  /** struct ocf_map_info, as far as line assignment touches it. */
  datatype MapEntry = MapEntry(status: LookupStatus, collIdx: int, locked: bool)

  /** The slots still waiting for a line. */
  function CountMiss(s: seq<MapEntry>): (r: nat)
    ensures r <= |s|
  {
    if |s| == 0 then 0
    else (if s[0].status == LookupMiss then 1 else 0) + CountMiss(s[1..])
  }

  lemma CountMissFrom(s: seq<MapEntry>, j: nat)
    requires j < |s|
    ensures CountMiss(s[j..]) == (if s[j].status == LookupMiss then 1 else 0) + CountMiss(s[j + 1..])
  {
    assert s[j..][1..] == s[j + 1..];
  }

  /** Filling one missed slot takes one off the count. */
  lemma {:induction false} CountMissFill(s: seq<MapEntry>, j: nat, x: MapEntry)
    requires j < |s| && s[j].status == LookupMiss && x.status != LookupMiss
    ensures CountMiss(s[j := x]) == CountMiss(s) - 1
  {
    if j > 0 {
      assert s[j := x][1..] == s[1..][j - 1 := x];
      CountMissFill(s[1..], j - 1, x);
    }
  }

  /** The missed slots of s are those before j and those from j on. */
  lemma {:induction false} CountMissSplit(s: seq<MapEntry>, j: nat)
    requires j <= |s|
    ensures CountMiss(s) == CountMiss(s[..j]) + CountMiss(s[j..])
  {
    if j == 0 {
      assert s[..0] == [] && s[0..] == s;
    } else {
      CountMissSplit(s[1..], j - 1);
      assert s[..j][1..] == s[1..][..j - 1];
      assert s[1..][j - 1..] == s[j..];
    }
  }

  /** A sequence without a missed slot counts none. */
  lemma {:induction false} CountMissNone(s: seq<MapEntry>)
    requires forall j :: 0 <= j < |s| ==> s[j].status != LookupMiss
    ensures CountMiss(s) == 0
  {
    if |s| > 0 {
      CountMissNone(s[1..]);
    }
  }

  /** ocf_lru_can_evict: evictions are refused once the number of lines
      being evicted across the cache reaches the limit. */
  function CanEvict(pending: int, limit: int): (r: bool)
    ensures r ==> pending < limit
    ensures !r ==> pending >= limit
  {
    !(pending >= limit)
  }

  /** The scan of ocf_lru_req_clines for the next missed slot: it stops at
      a missed slot or at the last one.  When some slot from `from` on is
      missed the scan stops at the first of them, so the BUG_ON that
      follows it never fires. */
  method NextMiss(m: array<MapEntry>, from: nat) returns (idx: nat)
    requires from < m.Length && CountMiss(m[from..]) >= 1
    ensures from <= idx < m.Length && m[idx].status == LookupMiss
    ensures forall j :: from <= j < idx ==> m[j].status != LookupMiss
    ensures CountMiss(m[from..]) == CountMiss(m[idx..])
  {
    idx := from;
    while idx + 1 < m.Length && m[idx].status != LookupMiss
      invariant from <= idx < m.Length
      invariant forall j :: from <= j < idx ==> m[j].status != LookupMiss
      invariant CountMiss(m[from..]) == CountMiss(m[idx..])
    {
      CountMissFrom(m[..], idx);
      idx := idx + 1;
    }
    CountMissFrom(m[..], idx);
  }

  // ---------------------------------------------------------------------
  // Line assignment
  // ---------------------------------------------------------------------

  /** Slot x was filled by line assignment: remapped, marked locked, and
      holding a clean line of partition dst that this call locked (it is
      in `held` and was not in `held0`). */
  ghost predicate Assigned(e: Engine, x: MapEntry, dst: nat, held0: set<int>, held: set<int>)
    reads e, e.partId, e.dirty
  {
    e.Shapes() && dst <= e.U &&
    x.status == LookupRemapped && x.locked &&
    0 <= x.collIdx < e.N &&
    e.where[x.collIdx] == e.ListId(dst, x.collIdx % e.L, true) &&
    e.partId[x.collIdx] == dst && !e.dirty[x.collIdx] &&
    x.collIdx in held && x.collIdx !in held0
  }

  /** Distinct changed slots hold distinct lines. */
  ghost predicate DistinctLines(m: seq<MapEntry>, m0: seq<MapEntry>)
    requires |m| == |m0|
  {
    forall j1, j2 :: 0 <= j1 < j2 < |m| && m[j1] != m0[j1] && m[j2] != m0[j2] ==>
      m[j1].collIdx != m[j2].collIdx
  }

  /** The map m, once m0, has had missed slots before reqIdx filled with
      distinct lines taken into partition dst (now held, held0 before). */
  ghost predicate MapFilled(e: Engine, m: seq<MapEntry>, m0: seq<MapEntry>, reqIdx: nat,
                            dst: nat, held0: set<int>, held: set<int>)
    reads e, e.partId, e.dirty
  {
    |m| == |m0| && reqIdx <= |m| && held0 <= held &&
    (forall j :: reqIdx <= j < |m| ==> m[j] == m0[j]) &&
    (forall j :: 0 <= j < |m| ==>
       m[j] == m0[j] || (m0[j].status == LookupMiss && Assigned(e, m[j], dst, held0, held))) &&
    DistinctLines(m, m0)
  }

  /** The changed slots of m (once m0) are exactly the missed slots of m0
      before reqIdx. */
  ghost predicate FilledBelow(m: seq<MapEntry>, m0: seq<MapEntry>, reqIdx: nat)
  {
    |m| == |m0| &&
    forall j :: 0 <= j < |m| ==> (m[j] != m0[j] <==> m0[j].status == LookupMiss && j < reqIdx)
  }

  /** The lines now in the changed slots of m (once m0). */
  ghost function TakenLines(m: seq<MapEntry>, m0: seq<MapEntry>): set<int>
    requires |m| == |m0|
  {
    set j | 0 <= j < |m| && m[j] != m0[j] :: m[j].collIdx
  }

  /** Filling an unchanged slot with line x.collIdx adds exactly that line
      to the taken lines. */
  lemma TakenLinesFill(s: seq<MapEntry>, m0: seq<MapEntry>, idx: nat, x: MapEntry)
    requires |s| == |m0| && idx < |s| && s[idx] == m0[idx] && x != m0[idx]
    ensures TakenLines(s[idx := x], m0) == TakenLines(s, m0) + {x.collIdx}
  {
    var s' := s[idx := x];
    forall y | y in TakenLines(s', m0)
      ensures y in TakenLines(s, m0) + {x.collIdx}
    {
      var j :| 0 <= j < |s'| && s'[j] != m0[j] && s'[j].collIdx == y;
      if j != idx {
        assert s[j] != m0[j];
      }
    }
    forall y | y in TakenLines(s, m0) + {x.collIdx}
      ensures y in TakenLines(s', m0)
    {
      if y == x.collIdx {
        assert s'[idx] != m0[idx];
      } else {
        var j :| 0 <= j < |s| && s[j] != m0[j] && s[j].collIdx == y;
        assert j != idx && s'[j] == s[j];
      }
    }
  }

  /** Every line of taken was on partition src's clean list of its shard
      in the list map w0. */
  ghost predicate FromSrc(e: Engine, taken: set<int>, w0: seq<int>, src: nat)
  {
    e.L >= 1 && src <= e.U &&
    forall y :: y in taken ==> 0 <= y < e.N && y < |w0| && w0[y] == e.ListId(src, y % e.L, true)
  }

  /** Every line below n outside taken keeps its list (w0 to w) and its
      partition (p0 to p). */
  ghost predicate KeptOutside(n: nat, taken: set<int>, w0: seq<int>, w: seq<int>, p0: seq<int>, p: seq<int>)
  {
    forall y :: 0 <= y < n && y !in taken ==>
      y < |w0| && y < |w| && y < |p0| && y < |p| && w[y] == w0[y] && p[y] == p0[y]
  }

  /** One more victim c, found on src's clean list in wB and moving alone
      from wB to w, keeps both facts with c added to the taken lines. */
  lemma {:induction false} TakeStep(e: Engine, src: nat, t0: set<int>, c: int,
                                    w0: seq<int>, p0: seq<int>, wB: seq<int>, pB: seq<int>, w: seq<int>, p: seq<int>)
    requires FromSrc(e, t0, w0, src) && KeptOutside(e.N, t0, w0, wB, p0, pB)
    requires e.L >= 1 && src <= e.U && 0 <= c < e.N && c !in t0 && c < |wB| && wB[c] == e.ListId(src, c % e.L, true)
    requires KeptOutside(e.N, {c}, wB, w, pB, p)
    ensures FromSrc(e, t0 + {c}, w0, src) && KeptOutside(e.N, t0 + {c}, w0, w, p0, p)
  {
    assert wB[c] == w0[c];
  }

  /** The bookkeeping of one taken victim: filling the unchanged missed
      slot idx of mB with line c, a line of src's clean list in wB that
      moves alone from wB to w, keeps the taken lines, their origin and
      the frame in step. */
  lemma TakeBookkeeping(e: Engine, src: nat, held: set<int>, heldIn: set<int>, c: int,
                        m0: seq<MapEntry>, mB: seq<MapEntry>, m: seq<MapEntry>, idx: nat,
                        w0: seq<int>, p0: seq<int>, wB: seq<int>, pB: seq<int>, w: seq<int>, p: seq<int>)
    requires |mB| == |m0| && idx < |mB| && mB[idx] == m0[idx] && m0[idx].status == LookupMiss
    requires m == mB[idx := MapEntry(LookupRemapped, c, true)]
    requires heldIn == held + TakenLines(mB, m0) && c !in heldIn
    requires FromSrc(e, TakenLines(mB, m0), w0, src) && KeptOutside(e.N, TakenLines(mB, m0), w0, wB, p0, pB)
    requires 0 <= c < e.N && c < |wB| && wB[c] == e.ListId(src, c % e.L, true)
    requires KeptOutside(e.N, {c}, wB, w, pB, p)
    ensures heldIn + {c} == held + TakenLines(m, m0)
    ensures FromSrc(e, TakenLines(m, m0), w0, src) && KeptOutside(e.N, TakenLines(m, m0), w0, w, p0, p)
  {
    TakenLinesFill(mB, m0, idx, MapEntry(LookupRemapped, c, true));
    TakeStep(e, src, TakenLines(mB, m0), c, w0, p0, wB, pB, w, p);
  }

  /** Once the missed slots before r are filled and the count of missed
      slots has dropped by taken, the filled slots are the first taken
      missed slots of m0. */
  lemma FirstMissesFilled(m: seq<MapEntry>, m0: seq<MapEntry>, r: nat, taken: nat)
    requires r <= |m| && FilledBelow(m, m0, r)
    requires forall j :: 0 <= j < |m| && m[j] != m0[j] ==> m[j].status != LookupMiss
    requires CountMiss(m) == CountMiss(m0) - taken
    ensures forall j :: 0 <= j < |m| ==>
              (m[j] != m0[j] <==> m0[j].status == LookupMiss && CountMiss(m0[..j]) < taken)
  {
    CountMissSplit(m, r);
    CountMissSplit(m0, r);
    CountMissNone(m[..r]);
    assert m[r..] == m0[r..];
    assert CountMiss(m0[..r]) == taken;
    forall j | 0 <= j < |m|
      ensures m[j] != m0[j] <==> m0[j].status == LookupMiss && CountMiss(m0[..j]) < taken
    {
      if j < r {
        CountMissSplit(m0[..r], j);
        assert m0[..r][..j] == m0[..j];
        CountMissFrom(m0[..r], j);
      } else {
        CountMissSplit(m0[..j], r);
        assert m0[..j][..r] == m0[..r];
      }
    }
  }

  /** The lock a round of ocf_lru_req_clines tries on each line: the
      eviction lock for a user partition, the plain write lock for the
      freelist. */
  function ReqLocker(src: nat, freelist: nat, env: LockEnv, t: Target, held: set<int>): Locker
  {
    if src != freelist then EvictLocker(env, t, held) else FreeLocker(env, held)
  }

  /** Taking one more line can only make a lock attempt fail. */
  lemma ReqLockerMonotone(src: nat, freelist: nat, env: LockEnv, t: Target, held: set<int>, c: int, y: int)
    requires Accepts(ReqLocker(src, freelist, env, t, held + {c}), y)
    ensures Accepts(ReqLocker(src, freelist, env, t, held), y)
  {
  }

  /** Every shard of partition src outside avail has a clean list whose
      every line the lock refuses. */
  ghost predicate ShardsRefused(e: Engine, cs: seq<seq<int>>, src: nat, avail: set<nat>, lk: Locker)
  {
    forall x :: 0 <= x < e.L && x !in avail ==> Refused(e, cs, src, x, true, lk)
  }

  /** A victim taken from shard c % L of src leaves every other clean list
      of src as it was, so a refusal of such a list survives the move and
      the growth of the set of held lines. */
  lemma RefusedMoved(e: Engine, cs: seq<seq<int>>, src: nat, dst: nat, c: nat, x: nat,
                     env: LockEnv, t: Target, held: set<int>)
    requires e.L >= 1 && src <= e.U && dst <= e.U && x != c % e.L
    requires Refused(e, cs, src, x, true, ReqLocker(src, e.U, env, t, held))
    ensures Refused(e, Moved(cs, c, e.ListId(src, c % e.L, true), e.ListId(dst, c % e.L, true)), src, x, true,
                    ReqLocker(src, e.U, env, t, held + {c}))
  {
    var k := e.ListId(src, x, true);
    var cs2 := Moved(cs, c, e.ListId(src, c % e.L, true), e.ListId(dst, c % e.L, true));
    if k == e.ListId(src, c % e.L, true) {
      e.ListIdInjective(src, x, true, src, c % e.L, true);
    }
    if k == e.ListId(dst, c % e.L, true) {
      e.ListIdInjective(src, x, true, dst, c % e.L, true);
    }
    assert cs2[k] == cs[k];
    forall y | y in cs2[k]
      ensures !Accepts(ReqLocker(src, e.U, env, t, held + {c}), y)
    {
      if Accepts(ReqLocker(src, e.U, env, t, held + {c}), y) {
        ReqLockerMonotone(src, e.U, env, t, held, c, y);
      }
    }
  }

  /** The victim search of one ocf_lru_req_clines round: the freelist loop
      for the freelist partition, the eviction loop otherwise.  A line
      found is clean, was not held, and is now on partition dst's clean
      list; no other line changes list or partition.  Every shard the
      iterator has given up on refuses all of its lines, and when no line
      is found every shard has been given up on. */
  method FindVictim(e: Engine, it: Iter, src: nat, dst: nat, env: LockEnv, t: Target, heldIn: set<int>)
    returns (c: int)
    requires e.Valid() && src <= e.U && dst < e.U && e.CleanListsClean(src)
    requires it.Valid() && it.L == e.L && it.part == src && it.clean && it.numAvail > 0
    requires ShardsRefused(e, e.contents, src, it.Remaining(), ReqLocker(src, e.U, env, t, heldIn))
    modifies e.meta, e.lists, e.partId, e.currSize, e`contents, e`where
    modifies it`mask, it`lruIdx, it`numAvail
    ensures e.Valid() && e.CleanListsClean(src)
    ensures it.Valid() && it.L == e.L && it.part == src && it.clean
    ensures c != END ==>
              it.numAvail > 0 && 0 <= c < e.N && c !in heldIn && !e.dirty[c] &&
              e.where[c] == e.ListId(dst, c % e.L, true) && e.partId[c] == dst
    ensures c != END ==>
              Victim(e, old(e.contents), old(e.where), src, c % e.L, c, ReqLocker(src, e.U, env, t, heldIn))
    ensures forall y :: 0 <= y < e.N && y != c ==>
              e.where[y] == old(e.where[y]) && e.partId[y] == old(e.partId[y])
    ensures c == END ==> it.Remaining() == {} && e.contents == old(e.contents)
    ensures ShardsRefused(e, e.contents, src, it.Remaining(),
                      ReqLocker(src, e.U, env, t, if c == END then heldIn else heldIn + {c}))
  {
    ghost var cs0, r0, w0 := e.contents, it.Remaining(), e.where;
    ghost var lk := ReqLocker(src, e.U, env, t, heldIn);
    if src != e.U {
      var ek;
      c, ek := EvictionNext(e, it, dst, env, t, heldIn);
      if c != END {
        assert lk == EvictLocker(env, t, heldIn);
        assert Victim(e, cs0, w0, src, c % e.L, c, lk);
      }
    } else {
      c := FreeNext(e, it, dst, env, heldIn);
      if c != END {
        assert lk == FreeLocker(env, heldIn);
        assert Victim(e, cs0, w0, src, c % e.L, c, lk);
      }
    }
    forall x | 0 <= x < e.L && x !in it.Remaining()
      ensures Refused(e, e.contents, src, x, true,
                      ReqLocker(src, e.U, env, t, if c == END then heldIn else heldIn + {c}))
    {
      assert Refused(e, cs0, src, x, true, lk);
      if c != END {
        assert c in cs0[e.ListId(src, c % e.L, true)];
        RefusedMoved(e, cs0, src, dst, c, x, env, t, heldIn);
      }
    }
  }

  /** One round of the ocf_lru_req_clines loop after the back-pressure
      check: find a victim and, if there is one, fill the next missed
      slot with it. */
  method TakeOne(e: Engine, it: Iter, src: nat, dst: nat, m: array<MapEntry>, ghost m0: seq<MapEntry>,
                 reqIdx: nat, env: LockEnv, t: Target, ghost held: set<int>, heldIn: set<int>,
                 ghost w0: seq<int>, ghost p0: seq<int>)
    returns (c: int, nextReq: nat, heldOut: set<int>)
    requires e.Valid() && src <= e.U && dst < e.U && e.CleanListsClean(src)
    requires it.Valid() && it.L == e.L && it.part == src && it.clean && it.numAvail > 0
    requires reqIdx <= m.Length && CountMiss(m[reqIdx..]) >= 1 && MapFilled(e, m[..], m0, reqIdx, dst, held, heldIn)
    requires FilledBelow(m[..], m0, reqIdx)
    requires ShardsRefused(e, e.contents, src, it.Remaining(), ReqLocker(src, e.U, env, t, heldIn))
    requires heldIn == held + TakenLines(m[..], m0)
    requires FromSrc(e, TakenLines(m[..], m0), w0, src)
    requires KeptOutside(e.N, TakenLines(m[..], m0), w0, e.where, p0, e.partId[..])
    modifies e.meta, e.lists, e.partId, e.currSize, e`contents, e`where, m
    modifies it`mask, it`lruIdx, it`numAvail
    ensures e.Valid() && e.CleanListsClean(src)
    ensures it.Valid() && it.L == e.L && it.part == src && it.clean
    ensures ShardsRefused(e, e.contents, src, it.Remaining(), ReqLocker(src, e.U, env, t, heldOut))
    ensures FilledBelow(m[..], m0, nextReq)
    ensures c == END ==> nextReq == reqIdx && heldOut == heldIn && m[..] == old(m[..]) &&
                         it.Remaining() == {} && e.contents == old(e.contents)
    ensures c != END ==>
              it.numAvail > 0 && reqIdx < nextReq <= m.Length && heldOut == heldIn + {c} &&
              CountMiss(m[nextReq..]) == CountMiss(old(m[reqIdx..])) - 1 &&
              CountMiss(m[..]) == CountMiss(old(m[..])) - 1
    ensures MapFilled(e, m[..], m0, nextReq, dst, held, heldOut)
    ensures c != END ==>
              Victim(e, old(e.contents), old(e.where), src, c % e.L, c, ReqLocker(src, e.U, env, t, heldIn))
    ensures heldOut == held + TakenLines(m[..], m0)
    ensures FromSrc(e, TakenLines(m[..], m0), w0, src)
    ensures KeptOutside(e.N, TakenLines(m[..], m0), w0, e.where, p0, e.partId[..])
  {
    nextReq, heldOut := reqIdx, heldIn;
    ghost var wB, pB := e.where, e.partId[..];
    c := FindVictim(e, it, src, dst, env, t, heldIn);
    assert MapFilled(e, m[..], m0, reqIdx, dst, held, heldIn) by {
      forall j | 0 <= j < m.Length && m[j] != m0[j]
        ensures Assigned(e, m[j], dst, held, heldIn)
      {
        assert m[j].collIdx in heldIn;
      }
    }
    if c != END {
      nextReq, heldOut := Fill(e, m, m0, reqIdx, c, src, dst, held, heldIn, w0, p0, wB, pB);
    }
  }

  /** The slot filling of a round that found victim c, with the
      bookkeeping of where the taken lines came from: c was on src's clean
      list in wB and is the only line that moved since. */
  method Fill(e: Engine, m: array<MapEntry>, ghost m0: seq<MapEntry>, reqIdx: nat, c: nat, src: nat,
              dst: nat, ghost held: set<int>, heldIn: set<int>,
              ghost w0: seq<int>, ghost p0: seq<int>, ghost wB: seq<int>, ghost pB: seq<int>)
    returns (nextReq: nat, heldOut: set<int>)
    requires reqIdx <= m.Length && CountMiss(m[reqIdx..]) >= 1 && MapFilled(e, m[..], m0, reqIdx, dst, held, heldIn)
    requires e.Shapes() && src <= e.U && dst <= e.U && c < e.N && !e.dirty[c] && c !in heldIn
    requires e.where[c] == e.ListId(dst, c % e.L, true) && e.partId[c] == dst
    requires FilledBelow(m[..], m0, reqIdx)
    requires heldIn == held + TakenLines(m[..], m0)
    requires FromSrc(e, TakenLines(m[..], m0), w0, src) && KeptOutside(e.N, TakenLines(m[..], m0), w0, wB, p0, pB)
    requires c < |wB| && wB[c] == e.ListId(src, c % e.L, true)
    requires KeptOutside(e.N, {c}, wB, e.where, pB, e.partId[..])
    modifies m
    ensures heldOut == heldIn + {c} && reqIdx < nextReq <= m.Length
    ensures FilledBelow(m[..], m0, nextReq)
    ensures CountMiss(m[nextReq..]) == CountMiss(old(m[reqIdx..])) - 1
    ensures CountMiss(m[..]) == CountMiss(old(m[..])) - 1
    ensures MapFilled(e, m[..], m0, nextReq, dst, held, heldOut)
    ensures heldOut == held + TakenLines(m[..], m0)
    ensures FromSrc(e, TakenLines(m[..], m0), w0, src)
    ensures KeptOutside(e.N, TakenLines(m[..], m0), w0, e.where, p0, e.partId[..])
  {
    ghost var mB := m[..];
    nextReq, heldOut := Assign(e, m, m0, reqIdx, c, dst, held, heldIn);
    TakeBookkeeping(e, src, held, heldIn, c, m0, mB, m[..], nextReq - 1, w0, p0, wB, pB, e.where, e.partId[..]);
  }

  /** ocf_lru_req_clines: take up to clineNo lines from partition src (the
      freelist when src is the freelist partition U, otherwise by
      eviction) into partition dst, filling the first missed slots of the
      request in order.  The shard walk starts at the queue's eviction
      index, which is advanced.  Asking for nothing changes nothing.  The
      loop stops short only when ocf_lru_can_evict refuses or when every
      clean line of src refuses the lock. */
  method ReqClines(e: Engine, src: nat, dst: nat, clineNo: nat, m: array<MapEntry>,
                   evictionIdx: nat, env: LockEnv, t: Target, held: set<int>,
                   pending: nat -> int, limit: int)
    returns (taken: nat, nextIdx: nat, heldOut: set<int>)
    requires e.Valid() && src <= e.U && dst < e.U && e.CleanListsClean(src)
    requires clineNo > 0 ==> CountMiss(m[..]) >= clineNo
    modifies e.meta, e.lists, e.partId, e.currSize, e`contents, e`where, m
    ensures e.Valid() && e.CleanListsClean(src)
    ensures taken <= clineNo
    ensures clineNo == 0 ==> taken == 0 && nextIdx == evictionIdx && m[..] == old(m[..]) &&
                             e.contents == old(e.contents)
    ensures clineNo > 0 ==> nextIdx == evictionIdx + 1
    ensures CountMiss(m[..]) == CountMiss(old(m[..])) - taken
    ensures MapFilled(e, m[..], old(m[..]), m.Length, dst, held, heldOut)
    ensures forall j :: 0 <= j < m.Length ==>
              (m[j] != old(m[j]) <==> old(m[j]).status == LookupMiss && CountMiss(old(m[..])[..j]) < taken)
    ensures taken < clineNo ==>
              !CanEvict(pending(taken), limit) ||
              forall x :: 0 <= x < e.L ==> Refused(e, e.contents, src, x, true, ReqLocker(src, e.U, env, t, heldOut))
    ensures heldOut == held + TakenLines(m[..], old(m[..]))
    ensures forall y :: y in TakenLines(m[..], old(m[..])) ==>
              0 <= y < e.N && old(e.where)[y] == e.ListId(src, y % e.L, true)
    ensures forall y :: 0 <= y < e.N && y !in TakenLines(m[..], old(m[..])) ==>
              e.where[y] == old(e.where)[y] && e.partId[y] == old(e.partId[y])
  {
    heldOut, taken, nextIdx := held, 0, evictionIdx;
    if clineNo == 0 {
      return;
    }
    var lruIdx := evictionIdx % e.L;
    nextIdx := evictionIdx + 1;
    var it := new Iter(e, src, lruIdx, true);
    ghost var m0 := m[..];
    var reqIdx;
    taken, reqIdx, heldOut := AssignLines(e, it, src, dst, clineNo, m, env, t, held, pending, limit);
    FirstMissesFilled(m[..], m0, reqIdx, taken);
  }

  /** The loop of ocf_lru_req_clines: until clineNo lines are taken,
      check the back-pressure and take one more victim into the next
      missed slot.  reqIdx is where the slot scan stands at the end; the
      missed slots before it are the filled ones. */
  method AssignLines(e: Engine, it: Iter, src: nat, dst: nat, clineNo: nat, m: array<MapEntry>,
                     env: LockEnv, t: Target, held: set<int>, pending: nat -> int, limit: int)
    returns (taken: nat, reqIdx: nat, heldOut: set<int>)
    requires e.Valid() && src <= e.U && dst < e.U && e.CleanListsClean(src)
    requires it.Valid() && it.L == e.L && it.part == src && it.clean && it.numAvail > 0
    requires forall x :: 0 <= x < e.L ==> x in it.Remaining()
    requires CountMiss(m[..]) >= clineNo
    modifies e.meta, e.lists, e.partId, e.currSize, e`contents, e`where, m
    modifies it`mask, it`lruIdx, it`numAvail
    ensures e.Valid() && e.CleanListsClean(src)
    ensures taken <= clineNo && reqIdx <= m.Length
    ensures CountMiss(m[..]) == CountMiss(old(m[..])) - taken
    ensures MapFilled(e, m[..], old(m[..]), m.Length, dst, held, heldOut)
    ensures FilledBelow(m[..], old(m[..]), reqIdx)
    ensures forall j :: 0 <= j < m.Length && m[j] != old(m[j]) ==> m[j].status != LookupMiss
    ensures taken < clineNo ==>
              !CanEvict(pending(taken), limit) ||
              forall x :: 0 <= x < e.L ==> Refused(e, e.contents, src, x, true, ReqLocker(src, e.U, env, t, heldOut))
    ensures heldOut == held + TakenLines(m[..], old(m[..]))
    ensures forall y :: y in TakenLines(m[..], old(m[..])) ==>
              0 <= y < e.N && old(e.where)[y] == e.ListId(src, y % e.L, true)
    ensures forall y :: 0 <= y < e.N && y !in TakenLines(m[..], old(m[..])) ==>
              e.where[y] == old(e.where)[y] && e.partId[y] == old(e.partId[y])
  {
    heldOut, taken, reqIdx := held, 0, 0;
    ghost var m0 := m[..];
    ghost var w0, p0 := e.where, e.partId[..];
    while taken < clineNo
      invariant e.Valid() && e.CleanListsClean(src)
      invariant it.Valid() && it.L == e.L && it.part == src && it.clean && it.numAvail > 0
      invariant taken <= clineNo && reqIdx <= m.Length
      invariant MapFilled(e, m[..], m0, reqIdx, dst, held, heldOut)
      invariant FilledBelow(m[..], m0, reqIdx)
      invariant ShardsRefused(e, e.contents, src, it.Remaining(), ReqLocker(src, e.U, env, t, heldOut))
      invariant CountMiss(m[reqIdx..]) >= clineNo - taken
      invariant CountMiss(m[..]) == CountMiss(m0) - taken
      invariant heldOut == held + TakenLines(m[..], m0)
      invariant FromSrc(e, TakenLines(m[..], m0), w0, src)
      invariant KeptOutside(e.N, TakenLines(m[..], m0), w0, e.where, p0, e.partId[..])
    {
      if !CanEvict(pending(taken), limit) {
        break;
      }
      var c;
      c, reqIdx, heldOut := TakeOne(e, it, src, dst, m, m0, reqIdx, env, t, held, heldOut, w0, p0);
      if c == END {
        break;
      }
      taken := taken + 1;
      assert reqIdx == m.Length ==> taken == clineNo;
    }
    assert MapFilled(e, m[..], m0, m.Length, dst, held, heldOut);
  }

  /** The slot-filling part of the ocf_lru_req_clines loop: find the next
      missed slot, remap it to line c and mark it locked; c joins the
      lines held. */
  method Assign(e: Engine, m: array<MapEntry>, ghost m0: seq<MapEntry>, reqIdx: nat, c: nat,
                dst: nat, ghost held: set<int>, heldIn: set<int>)
    returns (nextReq: nat, heldOut: set<int>)
    requires reqIdx <= m.Length && CountMiss(m[reqIdx..]) >= 1 && MapFilled(e, m[..], m0, reqIdx, dst, held, heldIn)
    requires e.Shapes() && dst <= e.U && c < e.N && !e.dirty[c] && c !in heldIn
    requires e.where[c] == e.ListId(dst, c % e.L, true) && e.partId[c] == dst
    requires FilledBelow(m[..], m0, reqIdx)
    modifies m
    ensures heldOut == heldIn + {c} && reqIdx < nextReq <= m.Length
    ensures FilledBelow(m[..], m0, nextReq)
    ensures CountMiss(m[nextReq..]) == CountMiss(old(m[reqIdx..])) - 1
    ensures CountMiss(m[..]) == CountMiss(old(m[..])) - 1
    ensures MapFilled(e, m[..], m0, nextReq, dst, held, heldOut)
    ensures old(m[nextReq - 1]) == m0[nextReq - 1] && m0[nextReq - 1].status == LookupMiss &&
            m[..] == old(m[..])[nextReq - 1 := MapEntry(LookupRemapped, c, true)]
  {
    var idx := NextMiss(m, reqIdx);
    ghost var before := m[..];
    CountMissFrom(before, idx);
    CountMissFill(before, idx, MapEntry(LookupRemapped, c, true));
    m[idx] := MapEntry(LookupRemapped, c, true);
    assert m[..] == before[idx := MapEntry(LookupRemapped, c, true)];
    assert m[idx + 1..] == before[idx + 1..];
    heldOut := heldIn + {c};
    nextReq := idx + 1;
    forall j | 0 <= j < m.Length && m[j] != m0[j]
      ensures Assigned(e, m[j], dst, held, heldOut)
    {
    }
    forall j1, j2 | 0 <= j1 < j2 < m.Length && m[j1] != m0[j1] && m[j2] != m0[j2]
      ensures m[j1].collIdx != m[j2].collIdx
    {
      if j1 != idx && j2 != idx {
        assert before[j1] != m0[j1] && before[j2] != m0[j2];
      } else {
        assert m[j1].collIdx in heldIn;
      }
    }
  }

  // ---------------------------------------------------------------------
  // Cleaning batch
  // ---------------------------------------------------------------------

  /** The dirty lists of partition p in the list table cs, shard by shard. */
  ghost function DirtyLists(e: Engine, cs: seq<seq<int>>, p: nat): (ds: seq<seq<int>>)
    requires p <= e.U && |cs| == e.NumLists()
    ensures |ds| == e.L
    ensures forall x :: 0 <= x < e.L ==> ds[x] == cs[e.ListId(p, x, false)]
  {
    seq(e.L, x requires 0 <= x < e.L && p <= e.U && |cs| == e.NumLists() => cs[e.ListId(p, x, false)])
  }

  /** Line y, taken into a batch, lies behind the cursor of its shard
      (ds are the dirty lists, pos the cursors). */
  ghost predicate Picked(ds: seq<seq<int>>, pos: seq<int>, y: int, env: LockEnv)
  {
    |ds| >= 1 && |pos| == |ds| &&
    y in ds[y % |ds|] && env.lineRd(y) && IndexOf(ds[y % |ds|], y) > pos[y % |ds|]
  }

  /** Every line behind a cursor is in batch b or refuses the read lock. */
  ghost predicate Covered(ds: seq<seq<int>>, pos: seq<int>, b: seq<int>, env: LockEnv)
  {
    |pos| == |ds| &&
    forall x, j :: 0 <= x < |ds| && 0 <= j && pos[x] < j < |ds[x]| ==>
      ds[x][j] in b || !env.lineRd(ds[x][j])
  }

  /** Batch b holds every line of the lists ds that the read lock takes. */
  ghost predicate Complete(ds: seq<seq<int>>, b: seq<int>, env: LockEnv)
  {
    forall x, y :: 0 <= x < |ds| && y in ds[x] && env.lineRd(y) ==> y in b
  }

  /** What ocf_lru_clean leaves in the batch b for the dirty lists ds: n
      distinct read-locked lines of those lists, then END to the end; a
      batch short of its size holds every line of the lists that the read
      lock takes. */
  ghost predicate Batch(ds: seq<seq<int>>, b: seq<int>, n: nat, env: LockEnv)
  {
    |ds| >= 1 && n <= |b| &&
    (forall q :: n <= q < |b| ==> b[q] == END) &&
    Distinct(b[..n]) &&
    (forall q :: 0 <= q < n ==> b[q] in ds[b[q] % |ds|] && env.lineRd(b[q])) &&
    (n < |b| ==> Complete(ds, b[..n], env))
  }

  lemma IndexOfDistinct(s: seq<int>, at: nat)
    requires Distinct(s) && at < |s|
    ensures IndexOf(s, s[at]) == at
  {
    var i := IndexOf(s, s[at]);
    assert s[i] == s[at];
  }

  /** A line on partition p's dirty list of shard sh is a real line of
      shard sh, and sits at one position only. */
  lemma OnDirtyList(e: Engine, p: nat, sh: nat, at: nat)
    requires e.Valid() && p <= e.U && sh < e.L && at < |DirtyLists(e, e.contents, p)[sh]|
    ensures 0 <= DirtyLists(e, e.contents, p)[sh][at] < e.N < END
    ensures DirtyLists(e, e.contents, p)[sh][at] % e.L == sh
    ensures IndexOf(DirtyLists(e, e.contents, p)[sh], DirtyLists(e, e.contents, p)[sh][at]) == at
  {
    var k := e.ListId(p, sh, false);
    var s := e.contents[k];
    assert LinkedAs(s, e.lists[k], e.meta[..], e.where, k);
    assert e.where[s[at]] == k;
    e.ShardOfList(s[at], p, sh, false);
    IndexOfDistinct(s, at);
  }

  /** Each line of the lists ds sits on the list of its own shard, once. */
  ghost predicate ShardsOk(ds: seq<seq<int>>)
  {
    forall x, j :: 0 <= x < |ds| && 0 <= j < |ds[x]| ==>
      ds[x][j] % |ds| == x && IndexOf(ds[x], ds[x][j]) == j
  }

  lemma DirtyShards(e: Engine, p: nat)
    requires e.Valid() && p <= e.U
    ensures ShardsOk(DirtyLists(e, e.contents, p))
  {
    var ds := DirtyLists(e, e.contents, p);
    forall x, j | 0 <= x < |ds| && 0 <= j < |ds[x]|
      ensures ds[x][j] % |ds| == x && IndexOf(ds[x], ds[x][j]) == j
    {
      OnDirtyList(e, p, x, j);
    }
  }

  /** Taking line c, found at position at of shard sh's list, keeps the
      batch distinct and every line behind the moved cursor covered. */
  lemma PickStep(ds: seq<seq<int>>, pos: seq<int>, b: seq<int>, sh: nat, at: nat, c: int, env: LockEnv)
    requires |ds| >= 1 && sh < |ds| && |pos| == |ds|
    requires forall q :: 0 <= q < |b| ==> Picked(ds, pos, b[q], env)
    requires Covered(ds, pos, b, env)
    requires Found(ds[sh], pos[sh], at, c, env)
    requires c % |ds| == sh && IndexOf(ds[sh], c) == at
    ensures c !in b
    ensures forall q :: 0 <= q < |b| + 1 ==> Picked(ds, pos[sh := at - 1], (b + [c])[q], env)
    ensures Covered(ds, pos[sh := at - 1], b + [c], env)
  {
    var pos' := pos[sh := at - 1];
    forall q | 0 <= q < |b| + 1
      ensures Picked(ds, pos', (b + [c])[q], env)
    {
      if q < |b| {
        assert Picked(ds, pos, b[q], env);
      }
    }
    forall x, j | 0 <= x < |ds| && 0 <= j && pos'[x] < j < |ds[x]|
      ensures ds[x][j] in b + [c] || !env.lineRd(ds[x][j])
    {
      if x == sh && j <= pos[sh] {
        if j > at {
          assert !env.lineRd(ds[sh][j]);
        }
      } else {
        assert ds[x][j] in b || !env.lineRd(ds[x][j]);
      }
    }
    forall q | 0 <= q < |b|
      ensures b[q] != c
    {
      assert Picked(ds, pos, b[q], env);
    }
  }

  /** What the collecting loop keeps: batch b holds distinct picked lines,
      everything behind the cursors pos is covered, and each shard outside
      rem has been walked to its head. */
  ghost predicate Progress(ds: seq<seq<int>>, pos: seq<int>, rem: set<nat>, b: seq<int>, env: LockEnv)
  {
    |ds| >= 1 && |pos| == |ds| &&
    (forall q :: 0 <= q < |b| ==> Picked(ds, pos, b[q], env)) &&
    Covered(ds, pos, b, env) && Distinct(b) &&
    (forall x :: 0 <= x < |ds| && x !in rem ==> Exhausted(ds[x], pos[x], env))
  }

  /** With every cursor at its tail, the empty batch is in progress. */
  lemma ProgressStart(ds: seq<seq<int>>, pos: seq<int>, rem: set<nat>, env: LockEnv)
    requires |ds| >= 1 && |pos| == |ds|
    requires forall x :: 0 <= x < |ds| ==> x in rem && pos[x] == |ds[x]| - 1
    ensures Progress(ds, pos, rem, [], env)
  {
  }

  /** One line taken from the cleaning walk of shard sh. */
  lemma ProgressStep(ds: seq<seq<int>>, pos0: seq<int>, r0: set<nat>, pos: seq<int>, r: set<nat>,
                     b: seq<int>, sh: nat, at: nat, c: int, env: LockEnv)
    requires Progress(ds, pos0, r0, b, env)
    requires r <= r0 && sh in r && sh < |ds| && pos == pos0[sh := at - 1]
    requires forall x :: x in r0 && x !in r ==> x < |ds| && Exhausted(ds[x], pos0[x], env)
    requires Found(ds[sh], pos0[sh], at, c, env)
    requires c % |ds| == sh && IndexOf(ds[sh], c) == at
    ensures Progress(ds, pos, r, b + [c], env)
  {
    PickStep(ds, pos0, b, sh, at, c, env);
    assert Distinct(b + [c]);
  }

  /** The walk found nothing more: every shard is exhausted, so the batch
      holds every line the read lock takes. */
  lemma {:induction false} ProgressEnd(ds: seq<seq<int>>, pos: seq<int>, r0: set<nat>, b: seq<int>, env: LockEnv)
    requires Progress(ds, pos, r0, b, env)
    requires forall x :: x in r0 ==> x < |ds| && Exhausted(ds[x], pos[x], env)
    ensures Complete(ds, b, env)
  {
    forall x, y | 0 <= x < |ds| && y in ds[x] && env.lineRd(y)
      ensures y in b
    {
      var j := IndexOf(ds[x], y);
      if j <= pos[x] {
        assert ds[x][..pos[x] + 1][j] == y;
      }
    }
  }

  /** The cleaning walk of a non-clean iterator over engine e is under way. */
  ghost predicate Walking(e: Engine, it: Iter)
    reads e, e.meta, e.lists, it, it.curr
  {
    e.Linked() && it.Valid() && it.Cursors(e) && !it.clean && it.numAvail > 0
  }

  /** One step of the collecting loop, cline[n] = lru_iter_cleaning_next():
      the slot gets the next line of the walk, or END when it is over. */
  method CollectOne(e: Engine, it: Iter, cline: array<int>, n: nat, env: LockEnv,
                    ghost ds: seq<seq<int>>, ghost b: seq<int>)
    returns (c: int)
    requires Walking(e, it) && ds == DirtyLists(e, e.contents, it.part) && ShardsOk(ds)
    requires Progress(ds, it.pos, it.Remaining(), b, env)
    requires n < cline.Length && cline != it.curr
    modifies it`mask, it`lruIdx, it`numAvail, it.curr, it`pos, cline
    ensures cline[..n] == old(cline[..n]) && cline[n] == c
    ensures c == END ==> Complete(ds, b, env)
    ensures c != END ==> Walking(e, it) && Progress(ds, it.pos, it.Remaining(), b + [c], env)
  {
    ghost var pos0, r0 := it.pos, it.Remaining();
    c := CleaningNext(e, it, env);
    ghost var pos1, r1, sh := it.pos, it.Remaining(), it.lruIdx;
    if c == END {
      ProgressEnd(ds, pos1, r0, b, env);
    } else {
      assert ds[sh][pos1[sh] + 1] == c;
      ProgressStep(ds, pos0, r0, pos1, r1, b, sh, pos1[sh] + 1, c, env);
    }
    cline[n] := c;
  }

  /** The lines of b are distinct read-locked lines of the lists ds, each
      on the list of its own shard. */
  ghost predicate Listed(ds: seq<seq<int>>, b: seq<int>, env: LockEnv)
  {
    |ds| >= 1 && Distinct(b) &&
    forall q :: 0 <= q < |b| ==> b[q] in ds[b[q] % |ds|] && env.lineRd(b[q])
  }

  lemma ProgressListed(ds: seq<seq<int>>, pos: seq<int>, rem: set<nat>, b: seq<int>, env: LockEnv)
    requires Progress(ds, pos, rem, b, env)
    ensures Listed(ds, b, env)
  {
    forall q | 0 <= q < |b|
      ensures b[q] in ds[b[q] % |ds|] && env.lineRd(b[q])
    {
      assert Picked(ds, pos, b[q], env);
    }
  }

  /** The collecting loop of ocf_lru_clean: take lines from the cleaning
      walk until the batch is full or every shard is exhausted. */
  method CollectLines(e: Engine, it: Iter, cline: array<int>, env: LockEnv, ghost ds: seq<seq<int>>)
    returns (n: nat, ghost b: seq<int>)
    requires Walking(e, it) && ds == DirtyLists(e, e.contents, it.part) && ShardsOk(ds)
    requires forall x :: 0 <= x < it.L ==> x in it.Remaining() && it.pos[x] == |ds[x]| - 1
    requires cline != it.curr
    modifies it`mask, it`lruIdx, it`numAvail, it.curr, it`pos, cline
    ensures n <= cline.Length && cline[..n] == b
    ensures Listed(ds, b, env)
    ensures n < cline.Length ==> Complete(ds, b, env)
  {
    b := [];
    ProgressStart(ds, it.pos, it.Remaining(), env);
    n := 0;
    while n < cline.Length
      invariant n <= cline.Length && |b| == n && cline[..n] == b
      invariant Walking(e, it)
      invariant Progress(ds, it.pos, it.Remaining(), b, env)
      decreases cline.Length - n
    {
      var c := CollectOne(e, it, cline, n, env, ds, b);
      if c == END {
        return;
      }
      b := b + [c];
      n := n + 1;
      assert cline[..n] == b;
    }
    ProgressListed(ds, it.pos, it.Remaining(), b, env);
  }

  /** The tail of ocf_lru_clean's collection: every slot from n on is END. */
  method FillEnd(cline: array<int>, n: nat)
    requires n <= cline.Length
    modifies cline
    ensures cline[..n] == old(cline[..n])
    ensures forall q :: n <= q < cline.Length ==> cline[q] == END
  {
    var i := n;
    while i < cline.Length
      invariant n <= i <= cline.Length && cline[..n] == old(cline[..n])
      invariant forall q :: n <= q < i ==> cline[q] == END
    {
      cline[i] := END;
      i := i + 1;
    }
  }

  /** The batch ocf_lru_clean hands to the cleaner. */
  method CollectBatch(e: Engine, it: Iter, cline: array<int>, env: LockEnv) returns (n: nat)
    requires e.Valid() && it.Valid() && it.Cursors(e) && !it.clean
    requires forall x :: 0 <= x < it.L ==> x in it.Remaining() && it.pos[x] == |DirtyLists(e, e.contents, it.part)[x]| - 1
    requires it.numAvail > 0 && cline != it.curr
    modifies it`mask, it`lruIdx, it`numAvail, it.curr, it`pos, cline
    ensures Batch(DirtyLists(e, e.contents, it.part), cline[..], n, env)
  {
    ghost var ds := DirtyLists(e, e.contents, it.part);
    DirtyShards(e, it.part);
    ghost var b;
    n, b := CollectLines(e, it, cline, env, ds);
    FillEnd(cline, n);
    BatchOf(ds, cline[..], b, n, env);
  }

  lemma BatchOf(ds: seq<seq<int>>, a: seq<int>, b: seq<int>, n: nat, env: LockEnv)
    requires n <= |a| && a[..n] == b && Listed(ds, b, env)
    requires n < |a| ==> Complete(ds, b, env)
    requires forall q :: n <= q < |a| ==> a[q] == END
    ensures Batch(ds, a, n, env)
  {
  }

  /** struct ocf_part_cleaning_ctx: the batch of lines handed to the
      cleaner and the guard that keeps one cleaning pass per partition. */
  class CleaningCtx {
    const cline: array<int>
    const counter: Counter

    constructor (size: nat)
      ensures cline.Length == size && fresh(cline) && fresh(counter)
      ensures counter.Valid() && counter.State() == RcState(0, 0, 0, 0)
    {
      cline := new int[size];
      counter := new Counter();
    }
  }

  function Min(a: nat, b: nat): (r: nat)
    ensures r <= a && r <= b && (r == a || r == b)
  {
    if a <= b then a else b
  }

  /** ocf_lru_clean for user partition p: unless management holds the cache
      or the guard's increment fails, collect a batch of read-locked dirty
      lines starting at shard evictionIdx % L and fire the cleaner on at
      most count of them.  The increment returns a bool, so the test for a
      pass already in flight never declines (see the findings);
      frozenMeanwhile is the freeze race of ocf_refcnt_inc. */
  method Clean(e: Engine, ctx: CleaningCtx, p: nat, mngtLocked: bool, frozenMeanwhile: bool,
               evictionIdx: nat, count: nat, env: LockEnv)
    returns (fired: bool, fireCount: nat, n: nat, nextIdx: nat)
    requires e.Valid() && p < e.U && ctx.counter.Valid()
    modifies ctx.counter, ctx.cline
    ensures ctx.counter.Valid()
    ensures mngtLocked ==> !fired && ctx.counter.State() == old(ctx.counter.State())
    ensures !mngtLocked ==>
              (ctx.counter.State(), fired) == CleanGuardAsWritten(old(ctx.counter.State()), frozenMeanwhile)
    ensures fired <==> !mngtLocked && old(ctx.counter.freeze) == 0 && !frozenMeanwhile
    ensures !fired ==> nextIdx == evictionIdx && ctx.cline[..] == old(ctx.cline[..])
    ensures fired ==> nextIdx == evictionIdx + 1 && fireCount == Min(count, ctx.cline.Length) &&
                      Batch(DirtyLists(e, e.contents, p), ctx.cline[..], n, env)
  {
    fired, fireCount, n, nextIdx := false, 0, 0, evictionIdx;
    if mngtLocked {
      return;
    }
    ghost var s0 := ctx.counter.State();
    var ok := ctx.counter.IncRef(frozenMeanwhile);
    CleanGuardAsWrittenIgnoresHolders(s0, frozenMeanwhile);
    var cnt := if ok then 1 else 0;
    if cnt == 0 {
      return;
    }
    // cnt is 1 here: the give-back for a pass already running is dead code
    var lruIdx := evictionIdx % e.L;
    nextIdx := evictionIdx + 1;
    var it := new Iter(e, p, lruIdx, false);
    n := CollectBatch(e, it, ctx.cline, env);
    fired, fireCount := true, Min(count, ctx.cline.Length);
  }

  /** ocf_lru_clean_get: the cleaner's getter; -1 at an END slot, otherwise
      0 and the slot's line. */
  function CleanGet(cline: seq<int>, idx: nat): (r: (int, int))
    requires idx < |cline|
    ensures r.0 == 0 || r.0 == -1
    ensures r.0 == 0 ==> r.1 == cline[idx] != END
    ensures r.0 == -1 <==> cline[idx] == END
  {
    if cline[idx] == END then (-1, 0) else (0, cline[idx])
  }

  /** The lines of a batch are real lines: none of them is END. */
  lemma BatchLines(e: Engine, p: nat, b: seq<int>, n: nat, env: LockEnv, q: nat)
    requires e.Valid() && p <= e.U && Batch(DirtyLists(e, e.contents, p), b, n, env) && q < n
    ensures 0 <= b[q] < e.N < END
  {
    var x := b[q] % e.L;
    OnDirtyList(e, p, x, IndexOf(DirtyLists(e, e.contents, p)[x], b[q]));
  }

  /** The getter serves exactly the collected lines: it succeeds at the
      first n slots, with the line collected there, and reports the end
      from slot n on. */
  lemma {:induction false} CleanGetServesBatch(e: Engine, p: nat, b: seq<int>, n: nat, env: LockEnv, idx: nat)
    requires e.Valid() && p <= e.U && Batch(DirtyLists(e, e.contents, p), b, n, env) && idx < |b|
    ensures CleanGet(b, idx).0 == 0 <==> idx < n
    ensures idx < n ==> CleanGet(b, idx).1 == b[idx] && b[idx] in DirtyLists(e, e.contents, p)[b[idx] % e.L]
  {
    if idx < n {
      BatchLines(e, p, b, n, env, idx);
    }
  }

  /** The non-END slots of a batch, in order. */
  function Lines(b: seq<int>): (r: seq<int>)
    ensures |r| <= |b|
    ensures forall y :: y in r <==> y in b && y != END
  {
    if |b| == 0 then []
    else (if b[0] == END then [] else [b[0]]) + Lines(b[1..])
  }

  /** The completion releases the read lock of every collected line and of
      nothing else. */
  lemma {:induction false} LinesOfBatch(e: Engine, p: nat, b: seq<int>, n: nat, env: LockEnv)
    requires e.Valid() && p <= e.U && Batch(DirtyLists(e, e.contents, p), b, n, env)
    ensures Lines(b) == b[..n]
  {
    LinesSplit(b, n);
    forall q | 0 <= q < n
      ensures b[..n][q] != END
    {
      BatchLines(e, p, b, n, env, q);
    }
    LinesNoEnd(b[..n]);
    LinesAllEnd(b[n..]);
  }

  lemma LinesStep(a: seq<int>, i: nat)
    requires i < |a|
    ensures Lines(a[i..]) == (if a[i] == END then [] else [a[i]]) + Lines(a[i + 1..])
  {
    assert a[i..][1..] == a[i + 1..];
  }

  lemma {:induction false} LinesSplit(b: seq<int>, n: nat)
    requires n <= |b|
    ensures Lines(b) == Lines(b[..n]) + Lines(b[n..])
    decreases n
  {
    if n > 0 {
      assert b[..n][1..] == b[1..][..n - 1];
      assert b[n..] == b[1..][n - 1..];
      LinesSplit(b[1..], n - 1);
    } else {
      assert b[..0] == [] && b[0..] == b;
    }
  }

  lemma {:induction false} LinesNoEnd(b: seq<int>)
    requires forall q :: 0 <= q < |b| ==> b[q] != END
    ensures Lines(b) == b
  {
    if |b| > 0 {
      LinesNoEnd(b[1..]);
    }
  }

  lemma {:induction false} LinesAllEnd(b: seq<int>)
    requires forall q :: 0 <= q < |b| ==> b[q] == END
    ensures Lines(b) == []
  {
    if |b| > 0 {
      LinesAllEnd(b[1..]);
    }
  }

  /** ocf_lru_clean_end: unlock the line of every non-END slot, then give
      the guard's reference back. */
  method CleanEnd(ctx: CleaningCtx) returns (unlocked: seq<int>)
    requires ctx.counter.Valid() && ctx.counter.counter > 0
    modifies ctx.counter
    ensures ctx.counter.Valid() && ctx.counter.State() == Dec(old(ctx.counter.State()))
    ensures unlocked == Lines(ctx.cline[..])
  {
    ghost var a := ctx.cline[..];
    unlocked := [];
    var i := 0;
    while i < ctx.cline.Length
      invariant 0 <= i <= ctx.cline.Length == |a| && unchanged(ctx.counter)
      invariant unlocked + Lines(a[i..]) == Lines(a)
    {
      LinesStep(a, i);
      if ctx.cline[i] != END {
        unlocked := unlocked + [ctx.cline[i]];
      }
      i := i + 1;
    }
    assert a[i..] == [];
    ctx.counter.DecRef();
  }
}
