/**
 * The cache-line replacement engine of ocf_lru.c: per-line LRU links, one
 * doubly linked list per (partition, shard, clean/dirty), a hot prefix at
 * the head of each list, and per-partition line counts.
 *
 * Lines are ids in [0, N).  Partitions 0 .. U-1 are the user partitions and
 * partition U is the freelist (PARTITION_FREELIST).  List (p, shard, clean)
 * is kept at index ListId(p, shard, clean) of `lists`.  The ghost
 * `contents[k]` is list k from head to tail, and `where[c]` is the list
 * holding line c, or -1 when c is on no list.
 */
module Lru {
  import opened Arith
  import opened LruList

  class Engine {
    /** number of cache lines (collision table entries) */
    const N: nat
    /** OCF_NUM_LRU_LISTS: shards per partition */
    const L: nat
    /** number of user partitions; partition U is the freelist */
    const U: nat
    /** OCF_LRU_HOT_RATIO */
    const hotRatio: nat

    const meta: array<LruMeta>
    const lists: array<ListRec>
    /** ocf_metadata_get/set_partition_id */
    const partId: array<int>
    /** metadata_test_dirty; written by metadata code outside this model */
    const dirty: array<bool>
    /** part->runtime->curr_size, indexed by partition */
    const currSize: array<int>

    ghost var contents: seq<seq<int>>
    ghost var where: seq<int>

    /** First list id of partition p. */
    function PartBase(p: nat): nat
    {
      p * (2 * L)
    }

    function NumLists(): nat
    {
      PartBase(U + 1)
    }

    /** ocf_lru_get_list(part p, shard, clean) */
    function ListId(p: nat, shard: nat, clean: bool): (k: nat)
      requires p <= U && shard < L
      ensures PartBase(p) <= k < PartBase(p) + 2 * L <= NumLists()
    {
      PartBaseBelow(p);
      PartBase(p) + 2 * shard + (if clean then 0 else 1)
    }

    lemma PartBaseMono(a: nat, b: nat)
      requires a <= b
      ensures PartBase(a) <= PartBase(b)
    {
      assert PartBase(b) == PartBase(a) + (b - a) * (2 * L);
    }

    lemma PartBaseBelow(p: nat)
      requires p <= U
      ensures PartBase(p) + 2 * L <= NumLists()
    {
      assert PartBase(p + 1) == PartBase(p) + 2 * L;
      PartBaseMono(p + 1, U + 1);
    }

    /** List ids of distinct partitions lie in disjoint ranges. */
    lemma ListIdPart(p: nat, shard: nat, clean: bool, q: nat)
      requires p <= U && q <= U && shard < L
      ensures PartBase(q) <= ListId(p, shard, clean) < PartBase(q) + 2 * L <==> p == q
    {
      if p < q {
        assert PartBase(p + 1) == PartBase(p) + 2 * L;
        PartBaseMono(p + 1, q);
      } else if p > q {
        assert PartBase(q + 1) == PartBase(q) + 2 * L;
        PartBaseMono(q + 1, p);
      }
    }

    /** Distinct (partition, shard, kind) triples name distinct lists. */
    lemma ListIdInjective(p: nat, sh: nat, clean: bool, q: nat, sh2: nat, clean2: bool)
      requires p <= U && q <= U && sh < L && sh2 < L
      requires ListId(p, sh, clean) == ListId(q, sh2, clean2)
      ensures p == q && sh == sh2 && clean == clean2
    {
      ListIdPart(p, sh, clean, q);
    }

    /** lru_get_cline_list: the list a line belongs on by its partition
        id (a user partition), its shard and its dirty bit. */
    function ClineList(c: nat): (k: nat)
      reads this, partId, dirty
      requires L >= 1 && c < partId.Length && c < dirty.Length
      requires 0 <= partId[c] < U
      ensures k == ListId(partId[c], c % L, !dirty[c])
    {
      ListId(partId[c], c % L, !dirty[c])
    }

    /** Lines held by the lists of partition p. */
    ghost function PartCount(cs: seq<seq<int>>, p: nat): nat
      requires p <= U && |cs| == NumLists()
    {
      PartBaseBelow(p);
      SumLens(cs, PartBase(p), PartBase(p) + 2 * L)
    }

    ghost predicate Shapes()
      reads this
    {
      L >= 1 && hotRatio >= 2 && N < END &&
      meta.Length == N && partId.Length == N && dirty.Length == N &&
      lists.Length == NumLists() && currSize.Length == U + 1 &&
      partId != currSize &&
      |contents| == NumLists() && |where| == N
    }

    /** The links and list records agree with `contents` and `where`. */
    ghost predicate Linked()
      reads this, meta, lists
    {
      Shapes() && Table(contents, lists[..], meta[..], where)
    }

    /** Every line on a list is on the clean or the dirty list of its own
        partition and of its shard c % L (pid is the partition id array). */
    ghost predicate AllPlaced(pid: seq<int>, w: seq<int>)
    {
      L >= 1 &&
      forall c :: 0 <= c < |w| && w[c] != -1 ==>
        c < |pid| && 0 <= pid[c] <= U &&
        (w[c] == ListId(pid[c], c % L, true) || w[c] == ListId(pid[c], c % L, false))
    }

    /** Each partition's size counter is the number of lines on its lists. */
    ghost predicate Counted(cs: seq<seq<int>>, sizes: seq<int>)
    {
      |cs| == NumLists() && |sizes| == U + 1 &&
      forall p :: 0 <= p <= U ==> sizes[p] == PartCount(cs, p)
    }

    ghost predicate AllHotBelow()
      reads this, lists
    {
      lists.Length == NumLists() && forall k :: 0 <= k < NumLists() ==> HotBelow(lists[k])
    }

    ghost predicate Valid()
      reads this, meta, lists, partId, currSize
    {
      Linked() && AllHotBelow() &&
      AllPlaced(partId[..], where) &&
      Counted(contents, currSize[..])
    }

    /** The partition of a listed line is the one its list belongs to. */
    lemma PartOfList(pid: seq<int>, w: seq<int>, c: nat, p: nat, clean: bool)
      requires AllPlaced(pid, w) && c < |w| && p <= U && L >= 1
      requires w[c] == ListId(p, c % L, clean)
      ensures pid[c] == p
    {
      ListIdPart(p, c % L, clean, pid[c]);
      ListIdPart(pid[c], c % L, true, pid[c]);
      ListIdPart(pid[c], c % L, false, pid[c]);
    }

    // -------------------------------------------------------------------
    // List primitives
    // -------------------------------------------------------------------

    /** add_lru_head */
    method AddHead(k: nat, c: nat)
      requires Linked() && k < NumLists() && c < N && where[c] == -1
      modifies meta, lists, this`contents, this`where
      ensures Linked()
      ensures contents == old(contents)[k := [c] + old(contents[k])]
      ensures where == old(where)[c := k]
      ensures forall j :: 0 <= j < NumLists() && j != k ==> lists[j] == old(lists[j])
      ensures lists[k].head == c && lists[k].numNodes == old(lists[k].numNodes) + 1
      ensures lists[k].trackHot == old(lists[k].trackHot)
      ensures old(lists[k].numNodes) == 0 ==>
                lists[k].tail == c && meta[c] == UNLINKED && lists[k].numHot == 0
      ensures old(lists[k].numNodes) > 0 ==>
                meta[c].next == old(lists[k].head) && meta[c].prev == END &&
                0 <= old(lists[k].head) < N && meta[old(lists[k].head)].prev == c &&
                lists[k].tail == old(lists[k].tail)
      ensures old(lists[k].numNodes) > 0 && old(lists[k].trackHot) ==>
                meta[c].hot && lists[k].numHot == old(lists[k].numHot) + 1 &&
                (!old(meta[lists[k].head].hot) ==> lists[k].lastHot == c)
      ensures !old(lists[k].trackHot) ==> !meta[c].hot && lists[k].numHot == old(lists[k].numHot)
    {
      var l := lists[k];
      ghost var s, m0, ls0 := contents[k], meta[..], lists[..];
      assert LinkedAs(s, l, m0, where, k);
      if l.numNodes == 0 {
        meta[c] := UNLINKED;
        lists[k] := l.(head := c, tail := c, numNodes := 1);
      } else {
        var h := l.head;
        assert h == s[0] && where[h] == k;
        var headHot := meta[h].hot;
        meta[c] := LruMeta(END, h, l.trackHot);
        meta[h] := meta[h].(prev := c);
        var l2 := l;
        if l.trackHot {
          l2 := l2.(lastHot := if !headHot then c else l.lastHot, numHot := l.numHot + 1);
        }
        lists[k] := l2.(head := c, numNodes := l.numNodes + 1);
      }
      TableAddHead(contents, ls0, m0, where, k, c, lists[k], meta[..]);
      assert lists[..] == ls0[k := lists[k]];
      contents := contents[k := [c] + s];
      where := where[c := k];
    }
  

    /** remove_lru_list: the case is chosen by whether the line is the
        head, the tail, both or neither. */
    method Remove(k: nat, c: nat)
      requires Linked() && k < NumLists() && c < N && where[c] == k && HotBelow(lists[k])
      modifies meta, lists, this`contents, this`where
      ensures Linked()
      ensures c in old(contents[k])
      ensures contents == old(contents)[k := Without(old(contents[k]), c)]
      ensures where == old(where)[c := -1]
      ensures forall j :: 0 <= j < NumLists() && j != k ==> lists[j] == old(lists[j])
      ensures meta[c] == UNLINKED
      ensures lists[k].numNodes == old(lists[k].numNodes) - 1
      ensures lists[k].numHot == old(lists[k].numHot) - (if old(meta[c].hot) then 1 else 0)
      ensures lists[k].trackHot == old(lists[k].trackHot)
      ensures old(lists[k].numNodes) == 1 ==>
                lists[k].head == END && lists[k].tail == END && lists[k].lastHot == END &&
                lists[k].numHot == 0
    {
      var l := lists[k];
      var isHead, isTail := l.head == c, l.tail == c;
      assert LinkedAs(contents[k], l, meta[..], where, k);
      if isHead && isTail {
        RemoveSole(k, c);
      } else if isHead {
        RemoveHead(k, c);
      } else if isTail {
        RemoveTail(k, c);
      } else {
        RemoveInterior(k, c);
      }
    }

    /** remove_lru_list, case 1: the line is head and tail, the only node. */
    method RemoveSole(k: nat, c: nat)
      requires Linked() && k < NumLists() && c < N && where[c] == k && HotBelow(lists[k])
      requires lists[k].head == c && lists[k].tail == c
      modifies meta, lists, this`contents, this`where
      ensures Linked()
      ensures old(contents[k]) == [c] && contents == old(contents)[k := []]
      ensures Without(old(contents[k]), c) == []
      ensures where == old(where)[c := -1]
      ensures forall j :: 0 <= j < NumLists() && j != k ==> lists[j] == old(lists[j])
      ensures meta[c] == UNLINKED && !old(meta[c].hot)
      ensures lists[k] == old(lists[k]).(head := END, tail := END, lastHot := END, numNodes := 0)
    {
      var l := lists[k];
      ghost var s, m0, ls0, w0 := contents[k], meta[..], lists[..], where;
      assert LinkedAs(s, l, m0, w0, k);
      assert LineOk(contents, m0, w0, c);
      ghost var i := IndexOf(s, c);
      WithoutAt(s, i);
      assert m0[c] == Expected(s, i, l.numHot);
      var node := meta[c];
      var numHot := if node.hot then l.numHot - 1 else l.numHot;
      l := l.(head := END, tail := END, lastHot := END);
      meta[c] := UNLINKED;
      lists[k] := l.(numHot := numHot, numNodes := l.numNodes - 1);
      RemoveSoleLinked(s, ls0[k], m0, w0, k, lists[k], meta[..]);
      TableRemove(contents, ls0, m0, w0, k, i, [], lists[k], meta[..]);
      assert lists[..] == ls0[k := lists[k]];
      contents := contents[k := []];
      where := where[c := -1];
    }

    /** remove_lru_list, case 2: the line is the head of a longer list. */
    method RemoveHead(k: nat, c: nat)
      requires Linked() && k < NumLists() && c < N && where[c] == k
      requires lists[k].head == c && lists[k].tail != c
      modifies meta, lists, this`contents, this`where
      ensures Linked()
      ensures c in old(contents[k])
      ensures contents == old(contents)[k := Without(old(contents[k]), c)]
      ensures where == old(where)[c := -1]
      ensures forall j :: 0 <= j < NumLists() && j != k ==> lists[j] == old(lists[j])
      ensures meta[c] == UNLINKED
      ensures lists[k] == old(lists[k]).(head := old(meta[c].next),
                lastHot := if old(lists[k].lastHot) == c then END else old(lists[k].lastHot),
                numHot := old(lists[k].numHot) - (if old(meta[c].hot) then 1 else 0),
                numNodes := old(lists[k].numNodes) - 1)
    {
      var l := lists[k];
      ghost var s, m0, ls0, w0 := contents[k], meta[..], lists[..], where;
      var node := meta[c];
      var next := node.next;
      assert |s| >= 2 && s[0] == c && next == s[1] && Without(s, c) == s[1..] by {
        assert LinkedAs(s, l, m0, w0, k);
        assert m0[s[0]] == Expected(s, 0, l.numHot);
        WithoutAt(s, 0);
      }
      TableRemoveHead(contents, ls0, m0, w0, k);
      var l2 := l.(head := next, lastHot := if l.lastHot == c then END else l.lastHot,
                   numHot := if node.hot then l.numHot - 1 else l.numHot,
                   numNodes := l.numNodes - 1);
      meta[next] := meta[next].(prev := END);
      meta[c] := UNLINKED;
      lists[k] := l2;
      assert meta[..] == m0[next := m0[next].(prev := END)][c := UNLINKED];
      assert lists[..] == ls0[k := l2];
      contents := contents[k := s[1..]];
      where := where[c := -1];
    }

    /** remove_lru_list, case 3: the line is the tail of a longer list.
        last_hot is left alone: the tail is cold since not every node is. */
    method RemoveTail(k: nat, c: nat)
      requires Linked() && k < NumLists() && c < N && where[c] == k && HotBelow(lists[k])
      requires lists[k].head != c && lists[k].tail == c
      modifies meta, lists, this`contents, this`where
      ensures Linked()
      ensures c in old(contents[k])
      ensures contents == old(contents)[k := Without(old(contents[k]), c)]
      ensures where == old(where)[c := -1]
      ensures forall j :: 0 <= j < NumLists() && j != k ==> lists[j] == old(lists[j])
      ensures meta[c] == UNLINKED && !old(meta[c].hot)
      ensures lists[k] == old(lists[k]).(tail := old(meta[c].prev),
                numNodes := old(lists[k].numNodes) - 1)
    {
      var l := lists[k];
      ghost var s, m0, ls0, w0 := contents[k], meta[..], lists[..], where;
      ghost var n := |s|;
      var node := meta[c];
      var prev := node.prev;
      assert n >= 2 && s[n - 1] == c && prev == s[n - 2] && !node.hot &&
             Without(s, c) == s[..n - 1] by {
        assert LinkedAs(s, l, m0, w0, k);
        assert m0[s[n - 1]] == Expected(s, n - 1, l.numHot);
        WithoutAt(s, n - 1);
        assert s[..n - 1] + s[n..] == s[..n - 1];
      }
      TableRemoveTail(contents, ls0, m0, w0, k);
      var l2 := l.(tail := prev, numNodes := l.numNodes - 1);
      meta[prev] := meta[prev].(next := END);
      meta[c] := UNLINKED;
      lists[k] := l2;
      assert meta[..] == m0[prev := m0[prev].(next := END)][c := UNLINKED];
      assert lists[..] == ls0[k := l2];
      contents := contents[k := s[..n - 1]];
      where := where[c := -1];
    }

    /** remove_lru_list, case 4: an interior line; its neighbours are linked
        to each other and last_hot steps back if it was this line. */
    method RemoveInterior(k: nat, c: nat)
      requires Linked() && k < NumLists() && c < N && where[c] == k
      requires lists[k].head != c && lists[k].tail != c
      modifies meta, lists, this`contents, this`where
      ensures Linked()
      ensures c in old(contents[k])
      ensures contents == old(contents)[k := Without(old(contents[k]), c)]
      ensures where == old(where)[c := -1]
      ensures forall j :: 0 <= j < NumLists() && j != k ==> lists[j] == old(lists[j])
      ensures meta[c] == UNLINKED
      ensures lists[k] == old(lists[k]).(
                lastHot := if old(lists[k].lastHot) == c then old(meta[c].prev) else old(lists[k].lastHot),
                numHot := old(lists[k].numHot) - (if old(meta[c].hot) then 1 else 0),
                numNodes := old(lists[k].numNodes) - 1)
    {
      var l := lists[k];
      ghost var s, m0, ls0, w0 := contents[k], meta[..], lists[..], where;
      assert c in s by {
        assert LineOk(contents, m0, w0, c);
      }
      ghost var i := IndexOf(s, c);
      var node := meta[c];
      var next, prev := node.next, node.prev;
      assert 0 < i < |s| - 1 && prev == s[i - 1] && next == s[i + 1] &&
             Without(s, c) == s[..i] + s[i + 1..] by {
        assert LinkedAs(s, l, m0, w0, k);
        assert m0[s[i]] == Expected(s, i, l.numHot);
        WithoutAt(s, i);
      }
      var l2 := l.(lastHot := if l.lastHot == c then prev else l.lastHot,
                   numHot := if node.hot then l.numHot - 1 else l.numHot,
                   numNodes := l.numNodes - 1);
      TableRemoveMiddle(contents, ls0, m0, w0, k, i, prev, c, next, l2);
      ghost var m1 := m0[prev := m0[prev].(next := next)];
      ghost var m2 := m1[next := m1[next].(prev := prev)];
      meta[prev] := meta[prev].(next := next);
      assert meta[..] == m1;
      meta[next] := meta[next].(prev := prev);
      assert meta[..] == m2;
      meta[c] := UNLINKED;
      assert meta[..] == m2[c := UNLINKED];
      lists[k] := l2;
      assert lists[..] == ls0[k := l2];
      contents := contents[k := s[..i] + s[i + 1..]];
      where := where[c := -1];
    }

    /** balance_lru_list: with target = numNodes / hotRatio, a list that
        tracks hot lines and is off target moves its hot count one step
        toward the target; the boundary node changes its hot flag and
        last_hot follows.  Afterwards the list is never all hot. */
    method Balance(k: nat)
      requires Linked() && k < NumLists()
      modifies meta, lists
      ensures Linked()
      ensures forall j :: 0 <= j < NumLists() && j != k ==> lists[j] == old(lists[j])
      ensures HotBelow(lists[k])
      ensures lists[k] == old(lists[k]).(numHot := lists[k].numHot, lastHot := lists[k].lastHot)
      ensures var h, t := old(lists[k].numHot), old(lists[k].numNodes) / hotRatio;
              lists[k].numHot == (if !old(lists[k].trackHot) || h == t then h
                                  else if h < t then h + 1 else h - 1)
      ensures !old(lists[k].trackHot) || old(lists[k].numHot) == old(lists[k].numNodes) / hotRatio ==>
                meta[..] == old(meta[..]) && lists[k] == old(lists[k])
    {
      var l := lists[k];
      ghost var s, m0, ls0 := contents[k], meta[..], lists[..];
      assert LinkedAs(s, l, m0, where, k);
      var target := l.numNodes / hotRatio;
      DivRatioHalf(l.numNodes, hotRatio);
      if !l.trackHot || target == l.numHot {
        return;
      }
      var l2: ListRec;
      if l.numHot == 0 {
        var h := l.head;
        assert h == s[0] && 0 <= h < N;
        meta[h] := meta[h].(hot := true);
        l2 := l.(lastHot := h, numHot := 1);
        assert meta[..] == m0[s[0] := m0[s[0]].(hot := true)];
      } else {
        var lh := l.lastHot;
        var node := meta[lh];
        assert lh == s[l.numHot - 1] && node == Expected(s, l.numHot - 1, l.numHot);
        if target > l.numHot {
          var nx := node.next;
          assert nx == s[l.numHot];
          meta[nx] := meta[nx].(hot := true);
          l2 := l.(numHot := l.numHot + 1, lastHot := nx);
          assert meta[..] == m0[s[l.numHot] := m0[s[l.numHot]].(hot := true)];
        } else if lh == l.head {
          assert l.numHot == 1 by {
            assert s[l.numHot - 1] == s[0];
          }
          meta[lh] := node.(hot := false);
          l2 := l.(numHot := 0, lastHot := END);
          assert meta[..] == m0[s[0] := m0[s[0]].(hot := false)];
        } else {
          var pv := node.prev;
          meta[lh] := node.(hot := false);
          l2 := l.(numHot := l.numHot - 1, lastHot := pv);
          assert meta[..] == m0[s[l.numHot - 1] := m0[s[l.numHot - 1]].(hot := false)];
        }
      }
      lists[k] := l2;
      BalanceLinked(s, l, m0, where, k, l2.numHot, l2, meta[..]);
      TableBalance(contents, ls0, m0, where, k, l2, meta[..]);
      assert lists[..] == ls0[k := l2];
    }

    // -------------------------------------------------------------------
    // Moves between lists
    // -------------------------------------------------------------------

    /** The step shared by ocf_lru_move, ocf_lru_clean_cline and
        ocf_lru_dirty_cline: remove_lru_list and balance on the source list,
        then add_lru_head and balance on the destination list. */
    method Relink(c: nat, sk: nat, dk: nat)
      requires Linked() && AllHotBelow() && c < N && sk < NumLists() && dk < NumLists()
      requires where[c] == sk
      modifies meta, lists, this`contents, this`where
      ensures Linked() && AllHotBelow()
      ensures c in old(contents[sk])
      ensures contents == Moved(old(contents), c, sk, dk)
      ensures where == old(where)[c := dk]
      ensures forall j :: 0 <= j < NumLists() && j != sk && j != dk ==> lists[j] == old(lists[j])
      ensures lists[dk].head == c
    {
      Remove(sk, c);
      Balance(sk);
      AddHead(dk, c);
      ghost var ls1 := lists[..];
      Balance(dk);
      forall j | 0 <= j < NumLists()
        ensures HotBelow(lists[j])
      {
        if j != sk && j != dk {
          assert old(HotBelow(lists[j]));
        } else if j != dk {
          assert lists[j] == ls1[j];
        }
      }
    }

    lemma PartCountUpdate(cs: seq<seq<int>>, k: nat, x: seq<int>, p: nat)
      requires |cs| == NumLists() && k < NumLists() && p <= U
      ensures PartCount(cs[k := x], p) ==
              PartCount(cs, p) + (if PartBase(p) <= k < PartBase(p) + 2 * L then |x| - |cs[k]| else 0)
    {
      PartBaseBelow(p);
      SumLensUpdate(cs, PartBase(p), PartBase(p) + 2 * L, k, x);
    }

    /** Moving a line from a list of partition sp to a list of partition
        dp takes one from sp's count and adds one to dp's. */
    lemma MovedCounted(cs: seq<seq<int>>, sizes: seq<int>, c: nat, sp: nat, cleanS: bool,
                       dp: nat, cleanD: bool)
      requires Counted(cs, sizes) && L >= 1 && sp <= U && dp <= U
      requires c in cs[ListId(sp, c % L, cleanS)]
      ensures var s1 := sizes[sp := sizes[sp] - 1];
              Counted(Moved(cs, c, ListId(sp, c % L, cleanS), ListId(dp, c % L, cleanD)),
                      s1[dp := s1[dp] + 1])
    {
      var sk, dk := ListId(sp, c % L, cleanS), ListId(dp, c % L, cleanD);
      var cs1 := cs[sk := Without(cs[sk], c)];
      var cs2 := cs1[dk := [c] + cs1[dk]];
      var s1 := sizes[sp := sizes[sp] - 1];
      var s2 := s1[dp := s1[dp] + 1];
      WithoutLength(cs[sk], c);
      forall p | 0 <= p <= U
        ensures s2[p] == PartCount(cs2, p)
      {
        PartCountUpdate(cs, sk, Without(cs[sk], c), p);
        PartCountUpdate(cs1, dk, [c] + cs1[dk], p);
        ListIdPart(sp, c % L, cleanS, p);
        ListIdPart(dp, c % L, cleanD, p);
      }
    }

    /** Giving line c partition dp and putting it on list (dp, c % L, cleanD)
        keeps every listed line on a list of its own partition. */
    lemma MovedPlaced(pid: seq<int>, w: seq<int>, c: nat, dp: nat, cleanD: bool)
      requires AllPlaced(pid, w) && c < |w| && |w| <= |pid| && dp <= U
      ensures AllPlaced(pid[c := dp], w[c := ListId(dp, c % L, cleanD)])
    {
    }

    /** ocf_lru_move: the line goes from list (sp, c % L, cleanS) to the
        head of list (dp, c % L, cleanD), the source partition's size drops
        by one, the destination's grows by one and the line takes the
        destination's partition id. */
    method Move(c: nat, sp: nat, cleanS: bool, dp: nat, cleanD: bool)
      requires Valid() && c < N && sp <= U && dp <= U
      requires where[c] == ListId(sp, c % L, cleanS)
      modifies meta, lists, partId, currSize, this`contents, this`where
      ensures Valid()
      ensures c in old(contents[ListId(sp, c % L, cleanS)])
      ensures contents == Moved(old(contents), c, ListId(sp, c % L, cleanS), ListId(dp, c % L, cleanD))
      ensures where == old(where)[c := ListId(dp, c % L, cleanD)]
      ensures partId[..] == old(partId[..])[c := dp]
      ensures forall p :: 0 <= p <= U ==>
                currSize[p] == old(currSize[p]) - (if p == sp then 1 else 0) + (if p == dp then 1 else 0)
      ensures forall j :: 0 <= j < NumLists() ==>
                j == ListId(sp, c % L, cleanS) || j == ListId(dp, c % L, cleanD) ||
                lists[j] == old(lists[j])
      ensures lists[ListId(dp, c % L, cleanD)].head == c
    {
      var sk, dk := ListId(sp, c % L, cleanS), ListId(dp, c % L, cleanD);
      ghost var cs0, pid0, sizes0 := contents, partId[..], currSize[..];
      Relink(c, sk, dk);
      currSize[sp] := currSize[sp] - 1;
      currSize[dp] := currSize[dp] + 1;
      partId[c] := dp;
      MovedCounted(cs0, sizes0, c, sp, cleanS, dp, cleanD);
      assert currSize[..] == sizes0[sp := sizes0[sp] - 1][dp := sizes0[sp := sizes0[sp] - 1][dp] + 1];
      MovedPlaced(pid0, old(where), c, dp, cleanD);
      assert partId[..] == pid0[c := dp];
    }

    /** ocf_lru_rm_cline: a line of a user partition goes from the list its
        partition, shard and dirty bit select to the head of the clean
        freelist list of its shard. */
    method RmCline(c: nat)
      requires Valid() && c < N && 0 <= partId[c] < U
      requires where[c] == ClineList(c)
      modifies meta, lists, partId, currSize, this`contents, this`where
      ensures Valid()
      ensures var sp := old(partId[c]);
              contents == Moved(old(contents), c, old(ClineList(c)), ListId(U, c % L, true)) &&
              currSize[..] == old(currSize[..])[sp := old(currSize[sp]) - 1][U := old(currSize[U]) + 1]
      ensures where == old(where)[c := ListId(U, c % L, true)]
      ensures partId[..] == old(partId[..])[c := U]
    {
      var sp := partId[c];
      Move(c, sp, !dirty[c], U, true);
    }

    /** ocf_lru_repart (and ocf_lru_repart_locked): the line keeps its shard
        and its clean/dirty kind and moves from partition sp to dp. */
    method Repart(c: nat, sp: nat, dp: nat)
      requires Valid() && c < N && sp <= U && dp <= U
      requires where[c] == ListId(sp, c % L, !dirty[c])
      modifies meta, lists, partId, currSize, this`contents, this`where
      ensures Valid()
      ensures contents == Moved(old(contents), c, ListId(sp, c % L, !dirty[c]), ListId(dp, c % L, !dirty[c]))
      ensures where == old(where)[c := ListId(dp, c % L, !dirty[c])]
      ensures partId[..] == old(partId[..])[c := dp]
      ensures forall p :: 0 <= p <= U ==>
                currSize[p] == old(currSize[p]) - (if p == sp then 1 else 0) + (if p == dp then 1 else 0)
    {
      var clean := !dirty[c];
      Move(c, sp, clean, dp, clean);
    }

    /** ocf_lru_clean_cline: the line goes from the dirty list to the head
        of the clean list of the same partition and shard; sizes and
        partition ids stay as they are. */
    method CleanCline(p: nat, c: nat)
      requires Valid() && c < N && p <= U
      requires where[c] == ListId(p, c % L, false)
      modifies meta, lists, this`contents, this`where
      ensures Valid()
      ensures contents == Moved(old(contents), c, ListId(p, c % L, false), ListId(p, c % L, true))
      ensures where == old(where)[c := ListId(p, c % L, true)]
      ensures lists[ListId(p, c % L, true)].head == c
    {
      var sk, dk := ListId(p, c % L, false), ListId(p, c % L, true);
      ghost var cs0, w0 := contents, where;
      PartOfList(partId[..], w0, c, p, false);
      Relink(c, sk, dk);
      MovedCounted(cs0, currSize[..], c, p, false, p, true);
      assert currSize[..] == currSize[..][p := currSize[p] - 1][p := currSize[p]];
      MovedPlaced(partId[..], w0, c, p, true);
      assert partId[..] == partId[..][c := p];
    }

    /** ocf_lru_dirty_cline: the reverse move, clean list to dirty list. */
    method DirtyCline(p: nat, c: nat)
      requires Valid() && c < N && p <= U
      requires where[c] == ListId(p, c % L, true)
      modifies meta, lists, this`contents, this`where
      ensures Valid()
      ensures contents == Moved(old(contents), c, ListId(p, c % L, true), ListId(p, c % L, false))
      ensures where == old(where)[c := ListId(p, c % L, false)]
      ensures lists[ListId(p, c % L, false)].head == c
    {
      var sk, dk := ListId(p, c % L, true), ListId(p, c % L, false);
      ghost var cs0, w0 := contents, where;
      PartOfList(partId[..], w0, c, p, true);
      Relink(c, sk, dk);
      MovedCounted(cs0, currSize[..], c, p, true, p, false);
      assert currSize[..] == currSize[..][p := currSize[p] - 1][p := currSize[p]];
      MovedPlaced(partId[..], w0, c, p, false);
      assert partId[..] == partId[..][c := p];
    }

    /** ocf_lru_hot_cline: a cold line is taken off its list, if it is on
        it, and put back at the head, then the list is balanced; a hot line
        is left where it is. */
    method HotCline(c: nat)
      requires Valid() && c < N && 0 <= partId[c] < U
      requires where[c] == ClineList(c)
      modifies meta, lists, this`contents, this`where
      ensures Valid()
      ensures where == old(where)
      ensures old(meta[c].hot) ==>
                contents == old(contents) && meta[..] == old(meta[..]) && lists[..] == old(lists[..])
      ensures !old(meta[c].hot) ==>
                contents == Moved(old(contents), c, old(ClineList(c)), old(ClineList(c))) &&
                lists[old(ClineList(c))].head == c
    {
      var hot := meta[c].hot;
      if hot {
        return;
      }
      var k := ClineList(c);
      var node := meta[c];
      var onList := node.next != END || node.prev != END || lists[k].head == c || lists[k].tail == c;
      assert onList by {
        ghost var s, l := contents[k], lists[k];
        assert LinkedAs(s, l, meta[..], where, k);
        assert LineOk(contents, meta[..], where, c);
        ghost var i := IndexOf(s, c);
        assert meta[..][s[i]] == Expected(s, i, l.numHot);
        NoEnd(s, where, k);
      }
      ghost var cs0, sizes0, ls0 := contents, currSize[..], lists[..];
      if onList {
        Remove(k, c);
      }
      AddHead(k, c);
      Balance(k);
      forall j | 0 <= j < NumLists()
        ensures HotBelow(lists[j])
      {
        if j != k {
          assert lists[j] == ls0[j];
        }
      }
      PartOfList(partId[..], where, c, partId[c], !dirty[c]);
      MovedCounted(cs0, sizes0, c, partId[c], !dirty[c], partId[c], !dirty[c]);
      assert sizes0 == sizes0[partId[c] := sizes0[partId[c]] - 1][partId[c] := sizes0[partId[c]]];
    }

    // -------------------------------------------------------------------
    // Initialisation
    // -------------------------------------------------------------------

    /** The engine as cache start-up leaves it: every line unlinked as by
        ocf_lru_init_cline, and ocf_lru_init run on every partition,
        the freelist last. */
    constructor (n: nat, shards: nat, userParts: nat, ratio: nat)
      requires shards >= 1 && ratio >= 2 && n < END
      ensures Valid()
      ensures N == n && L == shards && U == userParts && hotRatio == ratio
      ensures forall k :: 0 <= k < NumLists() ==> contents[k] == []
      ensures forall c :: 0 <= c < N ==> where[c] == -1 && meta[c] == UNLINKED
      ensures forall p :: 0 <= p <= U ==> currSize[p] == 0
    {
      N, L, U, hotRatio := n, shards, userParts, ratio;
      var numLists := (userParts + 1) * (2 * shards);
      meta := new LruMeta[n](_ => UNLINKED);
      lists := new ListRec[numLists](_ => EmptyRec(false));
      partId := new int[n](_ => 0);
      dirty := new bool[n](_ => false);
      currSize := new int[userParts + 1](_ => 0);
      contents := seq(numLists, _ => []);
      where := seq(n, _ => -1);
      new;
      InitialValid();
      var p := 0;
      while p <= U
        modifies lists, currSize
        invariant 0 <= p <= U + 1
        invariant Valid()
        invariant forall k :: 0 <= k < NumLists() ==> contents[k] == []
      {
        LruInit(p);
        p := p + 1;
      }
    }

    /** Unlinked lines and empty lists are a valid engine. */
    lemma InitialValid()
      requires L >= 1 && hotRatio >= 2 && N < END
      requires meta.Length == N && partId.Length == N && dirty.Length == N
      requires lists.Length == NumLists() && currSize.Length == U + 1 && partId != currSize
      requires contents == seq(NumLists(), _ => []) && where == seq(N, _ => -1)
      requires forall c :: 0 <= c < N ==> meta[c] == UNLINKED
      requires forall k :: 0 <= k < NumLists() ==> lists[k] == EmptyRec(false)
      requires forall p :: 0 <= p <= U ==> currSize[p] == 0
      ensures Valid()
    {
      forall k | 0 <= k < NumLists()
        ensures LinkedAs(contents[k], lists[k], meta[..], where, k)
      {
      }
      forall c | 0 <= c < N
        ensures LineOk(contents, meta[..], where, c)
      {
      }
      forall p | 0 <= p <= U
        ensures currSize[p] == PartCount(contents, p)
      {
        PartEmpty(contents, p);
      }
    }

    /** A partition whose lists are all empty holds no lines. */
    lemma PartEmpty(cs: seq<seq<int>>, p: nat)
      requires |cs| == NumLists() && p <= U
      requires forall sh, clean :: 0 <= sh < L ==> cs[ListId(p, sh, clean)] == []
      ensures PartCount(cs, p) == 0
    {
      PartBaseBelow(p);
      var lo := PartBase(p);
      forall j | lo <= j < lo + 2 * L
        ensures cs[j] == []
      {
        var sh := (j - lo) / 2;
        assert j == ListId(p, sh, (j - lo) % 2 == 0);
      }
      SumLensZero(cs, lo, lo + 2 * L);
    }

    /** ocf_lru_init on partition p (p == U is the freelist): each shard's
        clean list is reset, tracking hot lines unless p is the freelist,
        and so is each dirty list of a user partition; the partition's size
        becomes 0.  The lists must hold no lines. */
    method LruInit(p: nat)
      requires Valid() && p <= U
      requires forall sh, clean :: 0 <= sh < L ==> contents[ListId(p, sh, clean)] == []
      modifies lists, currSize
      ensures Valid()
      ensures forall sh :: 0 <= sh < L ==>
                lists[ListId(p, sh, true)] == EmptyRec(p != U) &&
                lists[ListId(p, sh, false)] == (if p != U then EmptyRec(true) else old(lists[ListId(p, sh, false)]))
      ensures forall j :: 0 <= j < NumLists() && (j < PartBase(p) || j >= PartBase(p) + 2 * L) ==>
                lists[j] == old(lists[j])
      ensures currSize[..] == old(currSize[..])[p := 0]
    {
      ResetLists(p);
      ZeroSize(p);
    }

    /** The loop of ocf_lru_init over the shards of partition p. */
    method ResetLists(p: nat)
      requires Linked() && AllHotBelow() && p <= U
      requires forall sh, clean :: 0 <= sh < L ==> contents[ListId(p, sh, clean)] == []
      modifies lists
      ensures Linked() && AllHotBelow()
      ensures forall sh :: 0 <= sh < L ==>
                lists[ListId(p, sh, true)] == EmptyRec(p != U) &&
                lists[ListId(p, sh, false)] == (if p != U then EmptyRec(true) else old(lists[ListId(p, sh, false)]))
      ensures forall j :: 0 <= j < NumLists() && (j < PartBase(p) || j >= PartBase(p) + 2 * L) ==>
                lists[j] == old(lists[j])
    {
      PartBaseBelow(p);
      var i := 0;
      while i < L
        invariant 0 <= i <= L
        invariant Linked() && AllHotBelow()
        invariant forall sh :: 0 <= sh < i ==>
                    lists[ListId(p, sh, true)] == EmptyRec(p != U) &&
                    lists[ListId(p, sh, false)] == (if p != U then EmptyRec(true) else old(lists[ListId(p, sh, false)]))
        invariant forall j :: 0 <= j < NumLists() && (j < PartBase(p) || j >= PartBase(p) + 2 * i) ==>
                    lists[j] == old(lists[j])
      {
        ResetShard(p, i);
        i := i + 1;
      }
    }

    /** The size of partition p, whose lists are empty, becomes 0. */
    method ZeroSize(p: nat)
      requires Linked() && AllHotBelow() && AllPlaced(partId[..], where) && Counted(contents, currSize[..])
      requires p <= U && forall sh, clean :: 0 <= sh < L ==> contents[ListId(p, sh, clean)] == []
      modifies currSize
      ensures Valid()
      ensures currSize[..] == old(currSize[..])[p := 0]
    {
      ghost var sizes0 := currSize[..];
      currSize[p] := 0;
      PartEmpty(contents, p);
      assert currSize[..] == sizes0[p := 0];
    }

    /** _lru_init on the lists of shard sh of partition p, as ocf_lru_init
        calls it. */
    method ResetShard(p: nat, sh: nat)
      requires Linked() && AllHotBelow() && p <= U && sh < L
      requires contents[ListId(p, sh, true)] == [] && contents[ListId(p, sh, false)] == []
      modifies lists
      ensures Linked() && AllHotBelow()
      ensures lists[..] == if p != U
        then old(lists[..])[ListId(p, sh, true) := EmptyRec(true)][ListId(p, sh, false) := EmptyRec(true)]
        else old(lists[..])[ListId(p, sh, true) := EmptyRec(false)]
    {
      var kc, kd := ListId(p, sh, true), ListId(p, sh, false);
      TableReset(contents, lists[..], meta[..], where, kc, p != U);
      lists[kc] := EmptyRec(p != U);
      if p != U {
        TableReset(contents, lists[..], meta[..], where, kd, true);
        lists[kd] := EmptyRec(true);
      }
    }

    /** Lines on the clean lists of partition p are not dirty.  The dirty
        bits are kept by metadata code outside this model; eviction relies
        on this agreement when it re-files a victim by its dirty bit. */
    ghost predicate CleanListsClean(p: nat)
      reads this, dirty
      requires Shapes() && p <= U
    {
      forall c :: 0 <= c < N && where[c] == ListId(p, c % L, true) ==> !dirty[c]
    }

    /** A line on list (p, sh, clean) is of shard sh. */
    lemma ShardOfList(c: nat, p: nat, sh: nat, clean: bool)
      requires Valid() && c < N && p <= U && sh < L && where[c] == ListId(p, sh, clean)
      ensures sh == c % L && partId[c] == p
    {
      assert where[c] != -1;
      if where[c] == ListId(partId[c], c % L, true) {
        ListIdInjective(p, sh, clean, partId[c], c % L, true);
      } else {
        ListIdInjective(p, sh, clean, partId[c], c % L, false);
      }
    }

    /** The same-partition branch of lru_iter_eviction_next: remove the
        line, put it back at the head of its list and balance the list. */
    method MoveToHead(k: nat, c: nat)
      requires Valid() && k < NumLists() && c < N && where[c] == k
      modifies meta, lists, this`contents, this`where
      ensures Valid()
      ensures where == old(where)
      ensures contents == Moved(old(contents), c, k, k)
      ensures forall j :: 0 <= j < NumLists() && j != k ==> lists[j] == old(lists[j])
    {
      ghost var cs0, sizes0, ls0 := contents, currSize[..], lists[..];
      Remove(k, c);
      AddHead(k, c);
      Balance(k);
      forall j | 0 <= j < NumLists()
        ensures HotBelow(lists[j])
      {
        if j != k {
          assert lists[j] == ls0[j];
        }
      }
      assert where[c] != -1;
      if where[c] == ListId(partId[c], c % L, true) {
        PartOfList(partId[..], where, c, partId[c], true);
        MovedCounted(cs0, sizes0, c, partId[c], true, partId[c], true);
      } else {
        PartOfList(partId[..], where, c, partId[c], false);
        MovedCounted(cs0, sizes0, c, partId[c], false, partId[c], false);
      }
      assert sizes0 == sizes0[partId[c] := sizes0[partId[c]] - 1][partId[c] := sizes0[partId[c]]];
    }
  }
}
