// The LRU iterator of src/ocf_lru.c: a round-robin walk over the shards
// of one partition, and the victim loops built on it (eviction, the
// freelist, cleaning).  Lock attempts are decided by an environment of
// oracle functions; what a victim loop does to the lists is done by the
// Engine of module Lru.
module LruIter {
  import opened Arith
  import opened LruList
  import opened LruBits
  import opened Lru

  // ---------------------------------------------------------------------
  // Lock outcomes
  // ---------------------------------------------------------------------

  /** What the rest of the cache would answer to a lock attempt or a
      metadata query: ocf_cache_line_try_lock_wr / _rd,
      ocf_hb_cline_naked_trylock_wr, ocf_cache_line_are_waiters and
      ocf_metadata_get_core_info. */
  datatype LockEnv = LockEnv(lineWr: int -> bool, lineRd: int -> bool,
                             hashWr: (int, int) -> bool, waiters: int -> bool,
                             coreId: int -> int, coreLine: int -> int)

  /** The request an eviction works for: its core, its core line range and
      the hash buckets it already holds (ocf_req_hash_in_range). */
  datatype Target = Target(coreId: int, first: int, last: int, hashLocked: (int, int) -> bool)

  /** Result of _lru_iter_evition_lock: whether the line is taken, its core
      address, and whether a hash bucket lock was taken for it. */
  datatype EvictLock = EvictLock(ok: bool, coreId: int, coreLine: int, hashTaken: bool)

  /** ocf_cache_line_try_lock_wr: fails on a line this caller already holds. */
  predicate TryLockWr(env: LockEnv, held: set<int>, c: int)
  {
    env.lineWr(c) && c !in held
  }

  /** The line belongs to the request's own core line range. */
  predicate InTarget(t: Target, coreId: int, coreLine: int)
  {
    coreId == t.coreId && t.first <= coreLine <= t.last
  }

  /** _lru_trylock_hash: a bucket the request holds already counts as taken. */
  predicate TryLockHash(env: LockEnv, t: Target, coreId: int, coreLine: int)
  {
    t.hashLocked(coreId, coreLine) || env.hashWr(coreId, coreLine)
  }

  /** _lru_iter_evition_lock: write-lock the line, refuse the request's own
      lines, lock the hash bucket, refuse a line others wait for.  Every
      refusal releases what was taken. */
  function EvictionLock(env: LockEnv, t: Target, held: set<int>, c: int): (r: EvictLock)
    ensures r.ok <==> TryLockWr(env, held, c) && !InTarget(t, env.coreId(c), env.coreLine(c)) &&
                      TryLockHash(env, t, env.coreId(c), env.coreLine(c)) && !env.waiters(c)
    ensures r.ok ==> r.coreId == env.coreId(c) && r.coreLine == env.coreLine(c) &&
                     (r.hashTaken <==> !t.hashLocked(r.coreId, r.coreLine))
    ensures !r.ok ==> !r.hashTaken
  {
    if !TryLockWr(env, held, c) then EvictLock(false, -1, 0, false)
    else
      var id, line := env.coreId(c), env.coreLine(c);
      if InTarget(t, id, line) then EvictLock(false, id, line, false)
      else if !TryLockHash(env, t, id, line) then EvictLock(false, id, line, false)
      else if env.waiters(c) then EvictLock(false, id, line, false)
      else EvictLock(true, id, line, !t.hashLocked(id, line))
  }

  // ---------------------------------------------------------------------
  // The iterator
  // ---------------------------------------------------------------------

  /** struct ocf_lru_iter.  The mask's top bit stands for the current
      shard lruIdx and bit j for shard (lruIdx + j + 1) % L; curr holds
      the cleaning cursors, one per shard, and pos their positions. */
  class Iter {
    const L: nat
    const part: nat
    const clean: bool
    var lruIdx: nat
    var mask: seq<bool>
    var numAvail: int
    const curr: array<int>
    ghost var pos: seq<int>

    ghost predicate Valid()
      reads this
    {
      L >= 1 && |mask| == L && lruIdx < L && numAvail == PopCount(mask) &&
      curr.Length == L && |pos| == L
    }

    /** The shards not yet found empty. */
    ghost function Remaining(): set<nat>
      reads this
      requires Valid()
    {
      Avail(lruIdx, mask)
    }

    /** Each cursor points at position pos[i] of its list, END before the head. */
    ghost predicate Cursors(e: Engine)
      reads this, curr, e
      requires Valid()
    {
      e.L == L && part <= e.U && |e.contents| == e.NumLists() &&
      forall i :: 0 <= i < L ==>
        -1 <= pos[i] < |e.contents[e.ListId(part, i, clean)]| &&
        curr[i] == (if pos[i] == -1 then END else e.contents[e.ListId(part, i, clean)][pos[i]])
    }

    /** lru_iter_init: every shard available, cursors at the tails, and
        the first shard visited is startLru. */
    constructor (e: Engine, p: nat, startLru: nat, isClean: bool)
      requires e.Valid() && p <= e.U && startLru < e.L
      ensures Valid() && L == e.L && part == p && clean == isClean
      ensures numAvail == L
      ensures forall x :: 0 <= x < L ==> x in Remaining()
      ensures (lruIdx + Ffs(mask)) % L == startLru
      ensures Cursors(e)
      ensures forall i :: 0 <= i < L ==> curr[i] == e.lists[e.ListId(p, i, isClean)].tail
      ensures forall i :: 0 <= i < L ==> pos[i] == |e.contents[e.ListId(p, i, isClean)]| - 1
      ensures fresh(curr)
    {
      var n := e.L;
      var a := new int[n];
      ghost var ps: seq<int> := [];
      var i := 0;
      while i < n
        invariant 0 <= i <= n && |ps| == i
        invariant forall j :: 0 <= j < i ==>
                    a[j] == e.lists[e.ListId(p, j, isClean)].tail &&
                    ps[j] == |e.contents[e.ListId(p, j, isClean)]| - 1
      {
        a[i] := e.lists[e.ListId(p, i, isClean)].tail;
        ps := ps + [|e.contents[e.ListId(p, i, isClean)]| - 1];
        i := i + 1;
      }
      L, part, clean := n, p, isClean;
      lruIdx := (startLru + n - 1) % n;
      mask := AllSet(n);
      numAvail := n;
      curr, pos := a, ps;
      new;
      AllSetPopCount(n);
      AllSetAvail(lruIdx, n);
      InitThenNext(startLru, n);
      forall j | 0 <= j < n
        ensures -1 <= pos[j] < |e.contents[e.ListId(p, j, isClean)]|
        ensures curr[j] == (if pos[j] == -1 then END
                            else e.contents[e.ListId(p, j, isClean)][pos[j]])
      {
        var k := e.ListId(p, j, isClean);
        assert LinkedAs(e.contents[k], e.lists[k], e.meta[..], e.where, k);
      }
    }

    /** The cursor of shard sh moves from line c, at position at of its
        list, to the line before it (END before the head). */
    method Advance(e: Engine, sh: nat, c: int, ghost at: nat)
      requires Valid() && Cursors(e) && e.Linked() && sh < L
      requires at <= pos[sh] && c == e.contents[e.ListId(part, sh, clean)][at]
      modifies curr, this`pos
      ensures Valid() && Cursors(e)
      ensures pos == old(pos)[sh := at - 1]
    {
      var k := e.ListId(part, sh, clean);
      ghost var s := e.contents[k];
      assert LinkedAs(s, e.lists[k], e.meta[..], e.where, k);
      assert e.meta[..][s[at]] == Expected(s, at, e.lists[k].numHot);
      curr[sh] := e.meta[c].prev;
      pos := pos[sh := at - 1];
      forall i | 0 <= i < L
        ensures -1 <= pos[i] < |e.contents[e.ListId(part, i, clean)]|
        ensures curr[i] == (if pos[i] == -1 then END else e.contents[e.ListId(part, i, clean)][pos[i]])
      {
      }
    }

    /** _lru_next_lru: move to the nearest available shard after the
        current one (round robin), keeping the set of available shards. */
    method NextLru() returns (idx: nat)
      requires Valid() && numAvail > 0
      modifies this`mask, this`lruIdx
      ensures Valid() && Remaining() == old(Remaining())
      ensures idx == lruIdx && idx in old(Remaining())
      ensures mask[L - 1]
      ensures forall x :: x in old(Remaining()) ==>
                x < L && Dist(old(lruIdx), idx, L) <= Dist(old(lruIdx), x, L)
    {
      PopCountBound(mask);
      var inc := Ffs(mask);
      ghost var m0, i0, r0 := mask, lruIdx, Remaining();
      var next := (lruIdx + inc) % L;
      NextLruKeepsAvail(i0, m0);
      assert next in r0;
      RotatePreservesPopCount(m0, inc);
      forall x | x in r0
        ensures x < L && Dist(i0, next, L) <= Dist(i0, x, L)
      {
        NextLruNearest(i0, m0, x);
        DistOf(i0, inc - 1, L);
        assert i0 + (inc - 1) + 1 == i0 + inc;
      }
      mask := RotateRight(mask, inc);
      lruIdx := next;
      idx := lruIdx;
    }

    /** _lru_lru_is_empty */
    function IsEmpty(): (r: bool)
      reads this
      requires Valid()
      ensures r <==> lruIdx !in Remaining()
    {
      TopBitIsCurrent(lruIdx, mask);
      !mask[L - 1]
    }

    /** _lru_lru_set_empty: the current shard is no longer available. */
    method SetEmpty()
      requires Valid() && mask[L - 1]
      modifies this`mask, this`numAvail
      ensures Valid() && Remaining() == old(Remaining()) - {lruIdx}
      ensures numAvail == old(numAvail) - 1
    {
      ClearTopPopCount(mask);
      ClearTopAvail(lruIdx, mask);
      mask := ClearTop(mask);
      numAvail := numAvail - 1;
    }

    /** _lru_lru_all_empty */
    function AllEmpty(): (r: bool)
      reads this
      requires Valid()
      ensures r <==> Remaining() == {}
    {
      AvailEmpty(lruIdx, mask);
      numAvail == 0
    }
  }

  // ---------------------------------------------------------------------
  // Victim loops
  // ---------------------------------------------------------------------

  /** The lock a victim loop tries on each line it looks at: the eviction
      lock of _lru_iter_evition_lock, the plain write lock of
      lru_iter_free_next, or the read lock of lru_iter_cleaning_next. */
  datatype Locker =
    | EvictLocker(env: LockEnv, t: Target, held: set<int>)
    | FreeLocker(env: LockEnv, held: set<int>)
    | CleanLocker(env: LockEnv)

  predicate Accepts(lk: Locker, y: int)
  {
    match lk
    case EvictLocker(env, t, held) => EvictionLock(env, t, held, y).ok
    case FreeLocker(env, held) => TryLockWr(env, held, y)
    case CleanLocker(env) => env.lineRd(y)
  }

  /** No line of list (part, x, clean) is taken by the lock. */
  ghost predicate Refused(e: Engine, cs: seq<seq<int>>, part: nat, x: nat, clean: bool, lk: Locker)
  {
    part <= e.U && x < e.L && |cs| == e.NumLists() &&
    forall y :: y in cs[e.ListId(part, x, clean)] ==> !Accepts(lk, y)
  }

  /** The inner loop of the victim loops: from position pos of list k
      towards the head, stop at the first line the lock takes.  Every line
      passed over was refused. */
  method WalkBack(e: Engine, k: nat, from: int, ghost pos: int, lk: Locker)
    returns (c: int, ghost at: int)
    requires e.Linked() && k < e.NumLists()
    requires -1 <= pos < |e.contents[k]|
    requires from == (if pos == -1 then END else e.contents[k][pos])
    ensures -1 <= at <= pos
    ensures c == (if at == -1 then END else e.contents[k][at])
    ensures c == END <==> at == -1
    ensures at != -1 ==> Accepts(lk, c)
    ensures forall j :: at < j <= pos ==> !Accepts(lk, e.contents[k][j])
    ensures c == END ==> forall y :: y in e.contents[k][..pos + 1] ==> !Accepts(lk, y)
  {
    ghost var s := e.contents[k];
    assert LinkedAs(s, e.lists[k], e.meta[..], e.where, k);
    NoEnd(s, e.where, k);
    c, at := from, pos;
    while c != END && !Accepts(lk, c)
      invariant -1 <= at <= pos
      invariant c == (if at == -1 then END else s[at])
      invariant forall j :: at < j <= pos ==> !Accepts(lk, s[j])
      decreases at
    {
      assert e.meta[..][s[at]] == Expected(s, at, e.lists[k].numHot);
      c := e.meta[c].prev;
      at := at - 1;
    }
    if c == END {
      forall y | y in s[..pos + 1]
        ensures !Accepts(lk, y)
      {
        var j :| 0 <= j <= pos && s[j] == y;
      }
    }
  }

  /** WalkBack from the tail of list k. */
  method WalkFromTail(e: Engine, k: nat, lk: Locker) returns (c: int)
    requires e.Linked() && k < e.NumLists()
    ensures c != END ==>
              c in e.contents[k] && Accepts(lk, c) &&
              forall j :: IndexOf(e.contents[k], c) < j < |e.contents[k]| ==> !Accepts(lk, e.contents[k][j])
    ensures c == END ==> forall y :: y in e.contents[k] ==> !Accepts(lk, y)
  {
    ghost var s := e.contents[k];
    assert LinkedAs(s, e.lists[k], e.meta[..], e.where, k);
    ghost var at;
    c, at := WalkBack(e, k, e.lists[k].tail, |s| - 1, lk);
    assert s[..|s|] == s;
    if c != END {
      assert Distinct(s);
      assert at == IndexOf(s, c);
    }
  }

  /** The line-found branch of the eviction and freelist loops: a clean
      line of partition part is re-filed to partition dst (moved to the
      head of its own list when dst is part). */
  method MoveVictim(e: Engine, c: nat, part: nat, dst: nat)
    requires e.Valid() && c < e.N && part <= e.U && dst < e.U
    requires e.where[c] == e.ListId(part, c % e.L, true) && e.CleanListsClean(part)
    modifies e.meta, e.lists, e.partId, e.currSize, e`contents, e`where
    ensures e.Valid() && e.CleanListsClean(part) && !e.dirty[c]
    ensures e.where == old(e.where)[c := e.ListId(dst, c % e.L, true)]
    ensures e.contents == Moved(old(e.contents), c, old(e.where[c]), e.ListId(dst, c % e.L, true))
    ensures e.partId[..] == old(e.partId[..])[c := dst]
  {
    var k := e.ListId(part, c % e.L, true);
    e.PartOfList(e.partId[..], e.where, c, part, true);
    if dst != part {
      e.Repart(c, part, dst);
    } else {
      e.MoveToHead(k, c);
      assert e.partId[..] == old(e.partId[..])[c := dst];
    }
    assert e.CleanListsClean(part) by {
      forall y | 0 <= y < e.N && e.where[y] == e.ListId(part, y % e.L, true)
        ensures !e.dirty[y]
      {
        if y == c && dst != part {
          e.ListIdInjective(dst, c % e.L, true, part, c % e.L, true);
        }
      }
    }
  }

  /** One pass of the do-while loop shared by lru_iter_eviction_next and
      lru_iter_free_next: go to the next available shard, walk its clean
      list from the tail, and either move the first line the lock takes
      or mark the shard empty. */
  method VictimStep(e: Engine, it: Iter, dst: nat, lk: Locker) returns (c: int)
    requires e.Valid() && it.Valid() && it.L == e.L && it.clean
    requires it.part <= e.U && dst < e.U && it.numAvail > 0
    requires e.CleanListsClean(it.part)
    modifies e.meta, e.lists, e.partId, e.currSize, e`contents, e`where
    modifies it`mask, it`lruIdx, it`numAvail
    ensures e.Valid() && it.Valid() && e.CleanListsClean(it.part)
    ensures it.lruIdx in old(it.Remaining())
    ensures c == END ==> it.Remaining() == old(it.Remaining()) - {it.lruIdx} &&
                         it.numAvail == old(it.numAvail) - 1 &&
                         Refused(e, old(e.contents), it.part, it.lruIdx, true, lk) &&
                         e.contents == old(e.contents) && e.where == old(e.where) &&
                         e.partId[..] == old(e.partId[..])
    ensures c != END ==>
              it.Remaining() == old(it.Remaining()) &&
              Victim(e, old(e.contents), old(e.where), it.part, it.lruIdx, c, lk) &&
              !e.dirty[c] &&
              e.where == old(e.where)[c := e.ListId(dst, c % e.L, true)] &&
              e.contents == Moved(old(e.contents), c, old(e.where[c]), e.ListId(dst, c % e.L, true)) &&
              e.partId[..] == old(e.partId[..])[c := dst]
  {
    var part := it.part;
    var sh := it.NextLru();
    var k := e.ListId(part, sh, true);
    c := WalkFromTail(e, k, lk);
    if c != END {
      assert Victim(e, e.contents, e.where, part, sh, c, lk) by {
        assert LinkedAs(e.contents[k], e.lists[k], e.meta[..], e.where, k);
        e.ShardOfList(c, part, sh, true);
      }
      MoveVictim(e, c, part, dst);
    } else {
      if !it.IsEmpty() {
        it.SetEmpty();
      }
    }
  }

  /** Line c is a victim found on shard sh of partition part: it is the
      line nearest the tail of that clean list that the lock takes. */
  ghost predicate Victim(e: Engine, cs: seq<seq<int>>, w: seq<int>, part: nat, sh: nat, c: int, lk: Locker)
  {
    part <= e.U && sh < e.L && |cs| == e.NumLists() &&
    0 <= c < |w| && c % e.L == sh && w[c] == e.ListId(part, sh, true) &&
    c in cs[e.ListId(part, sh, true)] && Accepts(lk, c) &&
    forall j :: IndexOf(cs[e.ListId(part, sh, true)], c) < j < |cs[e.ListId(part, sh, true)]| ==>
      !Accepts(lk, cs[e.ListId(part, sh, true)][j])
  }

  /** The do-while loop shared by lru_iter_eviction_next and
      lru_iter_free_next: passes until a line is found or every shard has
      been found empty. */
  method VictimNext(e: Engine, it: Iter, dst: nat, lk: Locker) returns (c: int)
    requires e.Valid() && it.Valid() && it.L == e.L && it.clean
    requires it.part <= e.U && dst < e.U && it.numAvail > 0
    requires e.CleanListsClean(it.part)
    modifies e.meta, e.lists, e.partId, e.currSize, e`contents, e`where
    modifies it`mask, it`lruIdx, it`numAvail
    ensures e.Valid() && it.Valid() && e.CleanListsClean(it.part)
    ensures it.Remaining() <= old(it.Remaining())
    ensures forall x :: x in old(it.Remaining()) && x !in it.Remaining() ==>
              Refused(e, old(e.contents), it.part, x, true, lk)
    ensures c == END ==> it.Remaining() == {} && e.contents == old(e.contents) &&
                         e.where == old(e.where) && e.partId[..] == old(e.partId[..])
    ensures c != END ==>
              it.numAvail > 0 && it.lruIdx in old(it.Remaining()) &&
              Victim(e, old(e.contents), old(e.where), it.part, it.lruIdx, c, lk) &&
              !e.dirty[c] &&
              e.where == old(e.where)[c := e.ListId(dst, c % e.L, true)] &&
              e.contents == Moved(old(e.contents), c, old(e.where[c]), e.ListId(dst, c % e.L, true)) &&
              e.partId[..] == old(e.partId[..])[c := dst]
  {
    var part := it.part;
    ghost var cs0, w0, pid0, r0 := e.contents, e.where, e.partId[..], it.Remaining();
    while true
      invariant e.Valid() && it.Valid() && it.L == e.L && it.part == part
      invariant e.CleanListsClean(part)
      invariant e.contents == cs0 && e.where == w0 && e.partId[..] == pid0
      invariant it.Remaining() <= r0
      invariant forall x :: x in r0 && x !in it.Remaining() ==> Refused(e, cs0, part, x, true, lk)
      invariant it.numAvail > 0
      decreases it.numAvail
    {
      c := VictimStep(e, it, dst, lk);
      if c != END {
        assert !it.AllEmpty();
        return;
      }
      if it.AllEmpty() {
        return;
      }
      PopCountBound(it.mask);
    }
  }

  /** lru_iter_eviction_next: the victim is a clean line of a user
      partition taken with the eviction lock, whose outcome (core address,
      hash lock taken) is returned with it. */
  method EvictionNext(e: Engine, it: Iter, dst: nat, env: LockEnv, t: Target, held: set<int>)
    returns (c: int, lk: EvictLock)
    requires e.Valid() && it.Valid() && it.L == e.L && it.clean
    requires it.part < e.U && dst < e.U && it.numAvail > 0
    requires e.CleanListsClean(it.part)
    modifies e.meta, e.lists, e.partId, e.currSize, e`contents, e`where
    modifies it`mask, it`lruIdx, it`numAvail
    ensures e.Valid() && it.Valid() && e.CleanListsClean(it.part)
    ensures forall x :: x in old(it.Remaining()) && x !in it.Remaining() ==>
              Refused(e, old(e.contents), it.part, x, true, EvictLocker(env, t, held))
    ensures c == END ==> it.Remaining() == {} && e.contents == old(e.contents) && e.where == old(e.where) &&
                         e.partId[..] == old(e.partId[..])
    ensures c != END ==>
              it.numAvail > 0 && Victim(e, old(e.contents), old(e.where), it.part, it.lruIdx, c, EvictLocker(env, t, held)) &&
              lk == EvictionLock(env, t, held, c) && lk.ok && !e.dirty[c] &&
              e.where == old(e.where)[c := e.ListId(dst, c % e.L, true)] &&
              e.contents == Moved(old(e.contents), c, old(e.where[c]), e.ListId(dst, c % e.L, true)) &&
              e.partId[..] == old(e.partId[..])[c := dst]
  {
    c := VictimNext(e, it, dst, EvictLocker(env, t, held));
    lk := if c != END then EvictionLock(env, t, held, c) else EvictLock(false, -1, 0, false);
  }

  /** lru_iter_free_next: the victim is a line of the freelist taken with
      a plain write lock; it always changes partition. */
  method FreeNext(e: Engine, it: Iter, dst: nat, env: LockEnv, held: set<int>) returns (c: int)
    requires e.Valid() && it.Valid() && it.L == e.L && it.clean
    requires it.part == e.U && dst < e.U && it.numAvail > 0
    requires e.CleanListsClean(e.U)
    modifies e.meta, e.lists, e.partId, e.currSize, e`contents, e`where
    modifies it`mask, it`lruIdx, it`numAvail
    ensures e.Valid() && it.Valid() && e.CleanListsClean(e.U)
    ensures forall x :: x in old(it.Remaining()) && x !in it.Remaining() ==>
              Refused(e, old(e.contents), e.U, x, true, FreeLocker(env, held))
    ensures c == END ==> it.Remaining() == {} && e.contents == old(e.contents) && e.where == old(e.where) &&
                         e.partId[..] == old(e.partId[..])
    ensures c != END ==>
              it.numAvail > 0 && Victim(e, old(e.contents), old(e.where), e.U, it.lruIdx, c, FreeLocker(env, held)) &&
              TryLockWr(env, held, c) && !e.dirty[c] &&
              e.where == old(e.where)[c := e.ListId(dst, c % e.L, true)] &&
              e.contents == Moved(old(e.contents), c, old(e.where[c]), e.ListId(dst, c % e.L, true)) &&
              e.partId[..] == old(e.partId[..])[c := dst]
  {
    c := VictimNext(e, it, dst, FreeLocker(env, held));
  }

  // ---------------------------------------------------------------------
  // The cleaning walk
  // ---------------------------------------------------------------------

  /** Walking list s down from position from, line c at position at is
      the first the read lock takes. */
  ghost predicate Found(s: seq<int>, from: int, at: int, c: int, env: LockEnv)
  {
    0 <= at <= from < |s| && s[at] == c && env.lineRd(c) &&
    forall j :: at < j <= from ==> !env.lineRd(s[j])
  }

  /** Walking list s down from position from finds no line the read lock
      takes. */
  ghost predicate Exhausted(s: seq<int>, from: int, env: LockEnv)
  {
    -1 <= from < |s| && forall y :: y in s[..from + 1] ==> !env.lineRd(y)
  }

  /** One pass of lru_iter_cleaning_next: resume the current shard's walk
      at its cursor, read-lock the first line that can be, and move the
      cursor past it; a shard whose walk finds nothing is marked empty. */
  method CleaningStep(e: Engine, it: Iter, env: LockEnv) returns (c: int)
    requires e.Linked() && it.Valid() && it.Cursors(e) && it.numAvail > 0
    modifies it`mask, it`lruIdx, it`numAvail, it.curr, it`pos
    ensures it.Valid() && it.Cursors(e)
    ensures it.lruIdx in old(it.Remaining())
    ensures c == END ==>
              it.Remaining() == old(it.Remaining()) - {it.lruIdx} && it.numAvail == old(it.numAvail) - 1 &&
              it.pos == old(it.pos) &&
              Exhausted(e.contents[e.ListId(it.part, it.lruIdx, it.clean)], old(it.pos)[it.lruIdx], env)
    ensures c != END ==>
              it.Remaining() == old(it.Remaining()) && it.numAvail == old(it.numAvail) &&
              it.pos == old(it.pos)[it.lruIdx := it.pos[it.lruIdx]] &&
              Found(e.contents[e.ListId(it.part, it.lruIdx, it.clean)], old(it.pos)[it.lruIdx],
                    it.pos[it.lruIdx] + 1, c, env)
  {
    var sh := it.NextLru();
    var k := e.ListId(it.part, sh, it.clean);
    ghost var s, p0, at := e.contents[k], it.pos[sh], 0;
    var lk := CleanLocker(env);
    c, at := WalkBack(e, k, it.curr[sh], p0, lk);
    if c != END {
      assert Found(s, p0, at, c, env) by {
        forall j | at < j <= p0
          ensures !env.lineRd(s[j])
        {
          assert !Accepts(lk, s[j]);
        }
        assert Accepts(lk, c);
      }
      it.Advance(e, sh, c, at);
    } else {
      assert Exhausted(s, p0, env) by {
        forall y | y in s[..p0 + 1]
          ensures !env.lineRd(y)
        {
          assert !Accepts(lk, y);
        }
      }
      if !it.IsEmpty() {
        it.SetEmpty();
      }
    }
  }

  /** lru_iter_cleaning_next: passes until a line is read-locked or every
      shard's walk is exhausted.  The lists do not change meanwhile (the
      caller holds every list lock). */
  method CleaningNext(e: Engine, it: Iter, env: LockEnv) returns (c: int)
    requires e.Linked() && it.Valid() && it.Cursors(e) && it.numAvail > 0
    modifies it`mask, it`lruIdx, it`numAvail, it.curr, it`pos
    ensures it.Valid() && it.Cursors(e)
    ensures it.Remaining() <= old(it.Remaining())
    ensures forall x :: x in old(it.Remaining()) && x !in it.Remaining() ==>
              x < it.L && Exhausted(e.contents[e.ListId(it.part, x, it.clean)], old(it.pos)[x], env)
    ensures c == END ==> it.Remaining() == {} && it.pos == old(it.pos)
    ensures c != END ==>
              it.lruIdx in it.Remaining() && it.numAvail > 0 &&
              it.pos == old(it.pos)[it.lruIdx := it.pos[it.lruIdx]] &&
              Found(e.contents[e.ListId(it.part, it.lruIdx, it.clean)], old(it.pos)[it.lruIdx],
                    it.pos[it.lruIdx] + 1, c, env)
  {
    ghost var r0, pos0 := it.Remaining(), it.pos;
    while true
      invariant it.Valid() && it.Cursors(e) && it.pos == pos0
      invariant it.Remaining() <= r0
      invariant forall x :: x in r0 && x !in it.Remaining() ==>
                  x < it.L && Exhausted(e.contents[e.ListId(it.part, x, it.clean)], pos0[x], env)
      invariant it.numAvail > 0
      decreases it.numAvail
    {
      c := CleaningStep(e, it, env);
      if c != END {
        assert !it.AllEmpty();
        return;
      }
      if it.AllEmpty() {
        return;
      }
      PopCountBound(it.mask);
    }
  }
}
