/**
 * The LRU lists of ocf_lru.c as values: the per-line links (struct
 * ocf_lru_meta) as a sequence indexed by line id, the list records
 * (struct ocf_lru_list) as a sequence indexed by list id, and what they
 * are meant to represent: list k is the sequence cs[k] of line ids from
 * head to tail, and w[c] is the list holding line c (-1 for none).
 * The lemmas here show that each step of add_lru_head, remove_lru_list
 * and balance_lru_list keeps the links and records in agreement with the
 * sequences; the engine class in module Lru applies them to its arrays.
 */
module LruList {

  /** end_marker: (ocf_cache_line_t)-1, the null link. */
  const END: int := 0xFFFF_FFFF

  /** struct ocf_lru_meta */
  datatype LruMeta = LruMeta(prev: int, next: int, hot: bool)

  /** A line on no list, as ocf_lru_init_cline leaves it. */
  const UNLINKED: LruMeta := LruMeta(END, END, false)

  /** struct ocf_lru_list */
  datatype ListRec = ListRec(numNodes: int, head: int, tail: int,
                             numHot: int, lastHot: int, trackHot: bool)

  // ---------------------------------------------------------------------
  // Sequences of line ids
  // ---------------------------------------------------------------------

  ghost predicate Distinct(s: seq<int>)
  {
    forall i, j :: 0 <= i < j < |s| ==> s[i] != s[j]
  }

  function IndexOf(s: seq<int>, x: int): (i: nat)
    requires x in s
    ensures i < |s| && s[i] == x && x !in s[..i]
  {
    if s[0] == x then 0
    else
      var i := 1 + IndexOf(s[1..], x);
      assert s[..i] == [s[0]] + s[1..][..i - 1];
      i
  }

  /** The list with the first occurrence of line x taken out. */
  function Without(s: seq<int>, x: int): seq<int>
  {
    if |s| == 0 then []
    else if s[0] == x then s[1..]
    else [s[0]] + Without(s[1..], x)
  }

  /** In a list of distinct lines, taking out the i-th line leaves the lines
      before it and the lines after it. */
  lemma {:induction false} WithoutAt(s: seq<int>, i: nat)
    requires Distinct(s) && i < |s|
    ensures s[i] in s && Without(s, s[i]) == s[..i] + s[i + 1..]
  {
    if i > 0 {
      var t := s[1..];
      assert s[0] != s[i];
      assert t[i - 1] == s[i];
      assert Distinct(t);
      WithoutAt(t, i - 1);
      assert s[..i] == [s[0]] + t[..i - 1];
      assert s[i + 1..] == t[i..];
    }
  }

  /** Taking a line out of a list of distinct lines removes exactly that
      line and keeps the rest distinct and in order. */
  lemma {:induction false} WithoutSpec(s: seq<int>, x: int)
    requires x in s && Distinct(s)
    ensures |Without(s, x)| == |s| - 1
    ensures Distinct(Without(s, x))
    ensures forall y :: y in Without(s, x) <==> y in s && y != x
  {
    var i := IndexOf(s, x);
    WithoutAt(s, i);
    var w := Without(s, x);
    assert forall j :: 0 <= j < i ==> w[j] == s[j];
    assert forall j :: i <= j < |w| ==> w[j] == s[j + 1];
    forall y | y in s && y != x
      ensures y in w
    {
      var j :| 0 <= j < |s| && s[j] == y;
      if j < i {
        assert w[j] == y;
      } else {
        assert w[j - 1] == y;
      }
    }
  }

  /** Taking out a line that is on the list shortens it by one. */
  lemma {:induction false} WithoutLength(s: seq<int>, x: int)
    requires x in s
    ensures |Without(s, x)| == |s| - 1
  {
    if s[0] != x {
      WithoutLength(s[1..], x);
    }
  }

  /** ocf_lru_move and the clean/dirty/hot transitions on the sequences:
      line c leaves list sk and becomes the head of list dk. */
  ghost function Moved(cs: seq<seq<int>>, c: int, sk: int, dk: int): seq<seq<int>>
    requires 0 <= sk < |cs| && 0 <= dk < |cs|
  {
    var cs1 := cs[sk := Without(cs[sk], c)];
    cs1[dk := [c] + cs1[dk]]
  }

  /** Total length of lists lo .. hi-1. */
  function SumLens(cs: seq<seq<int>>, lo: nat, hi: nat): nat
    requires lo <= hi <= |cs|
    decreases hi - lo
  {
    if lo == hi then 0 else |cs[lo]| + SumLens(cs, lo + 1, hi)
  }

  lemma {:induction false} SumLensUpdate(cs: seq<seq<int>>, lo: nat, hi: nat, k: nat, x: seq<int>)
    requires lo <= hi <= |cs| && k < |cs|
    ensures SumLens(cs[k := x], lo, hi) ==
            SumLens(cs, lo, hi) + (if lo <= k < hi then |x| - |cs[k]| else 0)
    decreases hi - lo
  {
    if lo < hi {
      SumLensUpdate(cs, lo + 1, hi, k, x);
    }
  }

  lemma {:induction false} SumLensZero(cs: seq<seq<int>>, lo: nat, hi: nat)
    requires lo <= hi <= |cs|
    requires forall j :: lo <= j < hi ==> cs[j] == []
    ensures SumLens(cs, lo, hi) == 0
    decreases hi - lo
  {
    if lo < hi {
      SumLensZero(cs, lo + 1, hi);
    }
  }

  // ---------------------------------------------------------------------
  // One list, as values: links in `m`, owning list ids in `w`
  // ---------------------------------------------------------------------

  /** The links and hot flag of the i-th node of list s. */
  function Expected(s: seq<int>, i: nat, numHot: int): LruMeta
    requires i < |s|
  {
    LruMeta(if i == 0 then END else s[i - 1],
            if i == |s| - 1 then END else s[i + 1],
            i < numHot)
  }

  /** The record's count, head, tail and hot boundary match list s. */
  ghost predicate Shaped(s: seq<int>, l: ListRec)
  {
    l.numNodes == |s| && 0 <= l.numHot <= |s| &&
    (if |s| == 0 then l.head == END && l.tail == END
     else l.head == s[0] && l.tail == s[|s| - 1]) &&
    l.lastHot == (if l.numHot == 0 then END else s[l.numHot - 1]) &&
    (!l.trackHot ==> l.numHot == 0)
  }

  /** A list never has every node hot.  remove_lru_list's tail case does
      not move last_hot, so it relies on the tail being cold. */
  predicate HotBelow(l: ListRec)
  {
    l.numHot == 0 || l.numHot < l.numNodes
  }

  /** The lines of s are distinct, in range, and recorded as on list k. */
  ghost predicate Owned(s: seq<int>, w: seq<int>, k: int)
  {
    Distinct(s) && forall i :: 0 <= i < |s| ==> 0 <= s[i] < |w| && w[s[i]] == k
  }

  /** Every node's prev/next/hot agree with its neighbours in s and with a
      hot prefix of length numHot. */
  ghost predicate Chained(s: seq<int>, numHot: int, m: seq<LruMeta>)
  {
    (forall i :: 0 <= i < |s| ==> 0 <= s[i] < |m|) &&
    (forall i {:trigger m[s[i]]} :: 0 <= i < |s| ==> m[s[i]] == Expected(s, i, numHot))
  }

  /** List record l with links m is list s, the list with id k. */
  ghost predicate LinkedAs(s: seq<int>, l: ListRec, m: seq<LruMeta>, w: seq<int>, k: int)
  {
    |w| == |m| <= END && Shaped(s, l) && Owned(s, w, k) && Chained(s, l.numHot, m)
  }

  /** A list is unaffected by changes to lines that are not on it. */
  lemma {:induction false} LinkedAsFrame(s: seq<int>, l: ListRec, m: seq<LruMeta>, w: seq<int>, k: int,
                                         m2: seq<LruMeta>, w2: seq<int>)
    requires LinkedAs(s, l, m, w, k)
    requires |m2| == |m| && |w2| == |w|
    requires forall x :: 0 <= x < |m| && w[x] == k ==> m2[x] == m[x] && w2[x] == w[x]
    ensures LinkedAs(s, l, m2, w2, k)
  {
    assert forall i :: 0 <= i < |s| ==> w[s[i]] == k;
  }

  // add_lru_head ----------------------------------------------------------

  lemma {:induction false} OwnedCons(s: seq<int>, w: seq<int>, k: int, c: int)
    requires Owned(s, w, k) && k >= 0 && 0 <= c < |w| && w[c] == -1
    ensures c !in s
    ensures Owned([c] + s, w[c := k], k)
  {
    var s2 := [c] + s;
    assert forall i :: 1 <= i < |s2| ==> s2[i] == s[i - 1];
  }

  lemma {:induction false} ChainedCons(s: seq<int>, h: int, m: seq<LruMeta>, c: int,
                                       t: bool, h2: int, m2: seq<LruMeta>)
    requires Chained(s, h, m) && Distinct(s) && c !in s && 0 <= c < |m| && 0 <= h <= |s|
    requires !t ==> h == 0
    requires |s| == 0 ==> m2 == m[c := UNLINKED] && h2 == h
    requires |s| > 0 ==>
      m2 == m[c := LruMeta(END, s[0], t)][s[0] := m[s[0]].(prev := c)] &&
      h2 == (if t then h + 1 else h)
    ensures Chained([c] + s, h2, m2)
  {
    var s2 := [c] + s;
    forall i | 0 <= i < |s2|
      ensures 0 <= s2[i] < |m2| && m2[s2[i]] == Expected(s2, i, h2)
    {
      if i == 0 && |s| > 0 {
        assert s2[0] == c && c != s[0];
      } else if i >= 1 {
        assert s2[i] == s[i - 1] && s[i - 1] != c;
        assert m[s[i - 1]] == Expected(s, i - 1, h);
        if i >= 2 {
          assert s[i - 1] != s[0];
        }
      }
    }
  }

  lemma {:induction false} AddHeadLinked(s: seq<int>, l: ListRec, m: seq<LruMeta>, w: seq<int>, k: int,
                                         c: int, l2: ListRec, m2: seq<LruMeta>)
    requires LinkedAs(s, l, m, w, k) && k >= 0
    requires 0 <= c < |m| && w[c] == -1
    requires |s| == 0 ==> m2 == m[c := UNLINKED] && l2 == l.(head := c, tail := c, numNodes := 1)
    requires |s| > 0 ==>
      m2 == m[c := LruMeta(END, s[0], l.trackHot)][s[0] := m[s[0]].(prev := c)] &&
      l2 == l.(head := c, numNodes := |s| + 1,
               numHot := if l.trackHot then l.numHot + 1 else l.numHot,
               lastHot := if l.trackHot && !m[s[0]].hot then c else l.lastHot)
    ensures LinkedAs([c] + s, l2, m2, w[c := k], k)
  {
    OwnedCons(s, w, k, c);
    ChainedCons(s, l.numHot, m, c, l.trackHot, l2.numHot, m2);
    if |s| > 0 {
      assert m[s[0]] == Expected(s, 0, l.numHot);
    }
  }

  // remove_lru_list -------------------------------------------------------

  lemma {:induction false} OwnedRemove(s: seq<int>, w: seq<int>, k: int, i: nat)
    requires Owned(s, w, k) && i < |s|
    ensures s[i] !in s[..i] + s[i + 1..]
    ensures Owned(s[..i] + s[i + 1..], w[s[i] := -1], k) || k == -1
  {
    var s2 := s[..i] + s[i + 1..];
    assert forall j :: 0 <= j < i ==> s2[j] == s[j];
    assert forall j :: i <= j < |s2| ==> s2[j] == s[j + 1];
  }

  lemma {:induction false} OwnedDropHead(s: seq<int>, w: seq<int>, k: int)
    requires Owned(s, w, k) && |s| >= 1
    ensures Owned(s[1..], w[s[0] := -1], k)
  {
    OwnedRemove(s, w, k, 0);
    assert s[..0] + s[1..] == s[1..];
  }

  lemma {:induction false} OwnedDropTail(s: seq<int>, w: seq<int>, k: int)
    requires Owned(s, w, k) && |s| >= 1
    ensures Owned(s[..|s| - 1], w[s[|s| - 1] := -1], k)
  {
    OwnedRemove(s, w, k, |s| - 1);
    assert s[..|s| - 1] + s[|s|..] == s[..|s| - 1];
  }

  lemma {:induction false} ChainedDropHead(s: seq<int>, h: int, m: seq<LruMeta>, h2: int, m2: seq<LruMeta>)
    requires Chained(s, h, m) && Distinct(s) && |s| >= 2
    requires h2 == (if h > 0 then h - 1 else h)
    requires m2 == m[s[1] := m[s[1]].(prev := END)][s[0] := UNLINKED]
    ensures Chained(s[1..], h2, m2)
  {
    var s2 := s[1..];
    forall i | 0 <= i < |s2|
      ensures 0 <= s2[i] < |m2| && m2[s2[i]] == Expected(s2, i, h2)
    {
      assert s2[i] == s[i + 1];
      assert m[s[i + 1]] == Expected(s, i + 1, h);
    }
  }

  lemma {:induction false} ChainedDropTail(s: seq<int>, h: int, m: seq<LruMeta>, m2: seq<LruMeta>)
    requires Chained(s, h, m) && Distinct(s) && |s| >= 2 && h < |s|
    requires m2 == m[s[|s| - 2] := m[s[|s| - 2]].(next := END)][s[|s| - 1] := UNLINKED]
    ensures Chained(s[..|s| - 1], h, m2)
  {
    var s2 := s[..|s| - 1];
    forall i | 0 <= i < |s2|
      ensures 0 <= s2[i] < |m2| && m2[s2[i]] == Expected(s2, i, h)
    {
      assert s2[i] == s[i] && s[i] != s[|s| - 1];
      assert m[s[i]] == Expected(s, i, h);
      if i < |s| - 2 {
        assert s[i] != s[|s| - 2];
      }
    }
  }

  lemma {:induction false} ChainedDropMiddle(s: seq<int>, h: int, m: seq<LruMeta>, i: nat,
                                             h2: int, m2: seq<LruMeta>)
    requires Chained(s, h, m) && Distinct(s) && 0 < i < |s| - 1
    requires h2 == (if i < h then h - 1 else h)
    requires m2 == m[s[i - 1] := m[s[i - 1]].(next := s[i + 1])]
                    [s[i + 1] := m[s[i + 1]].(prev := s[i - 1])][s[i] := UNLINKED]
    ensures Chained(s[..i] + s[i + 1..], h2, m2)
  {
    var s2 := s[..i] + s[i + 1..];
    forall j | 0 <= j < |s2|
      ensures 0 <= s2[j] < |m2| && m2[s2[j]] == Expected(s2, j, h2)
    {
      if j < i {
        assert s2[j] == s[j];
        assert m[s[j]] == Expected(s, j, h);
      } else {
        assert s2[j] == s[j + 1];
        assert m[s[j + 1]] == Expected(s, j + 1, h);
      }
    }
  }

  // balance_lru_list ------------------------------------------------------

  /** Moving the hot/cold boundary by one node: node s[x] changes its hot
      flag and the count becomes h2. */
  lemma {:induction false} ChainedHotShift(s: seq<int>, h: int, m: seq<LruMeta>, h2: int, m2: seq<LruMeta>)
    requires Chained(s, h, m) && Distinct(s)
    requires 0 <= h <= |s| && 0 <= h2 <= |s| && (h2 == h + 1 || h2 == h - 1)
    requires var x := if h2 > h then h else h2;
             m2 == m[s[x] := m[s[x]].(hot := h2 > h)]
    ensures Chained(s, h2, m2)
  {
    var x := if h2 > h then h else h2;
    forall i | 0 <= i < |s|
      ensures 0 <= s[i] < |m2| && m2[s[i]] == Expected(s, i, h2)
    {
      assert m[s[i]] == Expected(s, i, h);
      if i != x {
        assert s[i] != s[x];
      }
    }
  }


  /** remove_lru_list, sole node: the list becomes empty. */
  lemma {:induction false} RemoveSoleLinked(s: seq<int>, l: ListRec, m: seq<LruMeta>, w: seq<int>, k: int,
                                            l2: ListRec, m2: seq<LruMeta>)
    requires LinkedAs(s, l, m, w, k) && HotBelow(l) && |s| == 1
    requires l2 == l.(head := END, tail := END, lastHot := END,
                      numHot := if m[s[0]].hot then l.numHot - 1 else l.numHot,
                      numNodes := l.numNodes - 1)
    requires m2 == m[s[0] := UNLINKED]
    ensures LinkedAs([], l2, m2, w[s[0] := -1], k)
    ensures SameOff(m, m2, w, k)
  {
    assert m[s[0]] == Expected(s, 0, l.numHot);
    SameOffUpdate(m, w, k, s[0], UNLINKED);
  }

  /** m2 differs from m only at lines on list k. */
  ghost predicate SameOff(m: seq<LruMeta>, m2: seq<LruMeta>, w: seq<int>, k: int)
  {
    |m2| == |m| && |w| == |m| && forall x :: 0 <= x < |m| && w[x] != k ==> m2[x] == m[x]
  }

  lemma SameOffUpdate(m: seq<LruMeta>, w: seq<int>, k: int, a: int, va: LruMeta)
    requires |w| == |m| && 0 <= a < |m| && w[a] == k
    ensures SameOff(m, m[a := va], w, k)
  {
  }

  lemma SameOffTrans(m: seq<LruMeta>, m1: seq<LruMeta>, m2: seq<LruMeta>, w: seq<int>, k: int)
    requires SameOff(m, m1, w, k) && SameOff(m1, m2, w, k)
    ensures SameOff(m, m2, w, k)
  {
  }

  /** No line id of a list is the END marker. */
  lemma NoEnd(s: seq<int>, w: seq<int>, k: int)
    requires Owned(s, w, k) && |w| <= END
    ensures END !in s
  {
  }

  lemma {:induction false} RemoveHeadShaped(s: seq<int>, l: ListRec, h0: bool, l2: ListRec)
    requires Shaped(s, l) && Distinct(s) && END !in s && |s| >= 2 && h0 == (0 < l.numHot)
    requires l2 == l.(head := s[1],
                      lastHot := if l.lastHot == s[0] then END else l.lastHot,
                      numHot := if h0 then l.numHot - 1 else l.numHot,
                      numNodes := l.numNodes - 1)
    ensures Shaped(s[1..], l2)
  {
    var h := l.numHot;
    if h >= 2 {
      assert s[h - 1] != s[0];
      assert s[1..][h - 2] == s[h - 1];
    }
  }

  /** remove_lru_list, head of a longer list: the next node becomes head. */
  lemma {:induction false} RemoveHeadLinked(s: seq<int>, l: ListRec, m: seq<LruMeta>, w: seq<int>, k: int,
                                            l2: ListRec, m2: seq<LruMeta>)
    requires LinkedAs(s, l, m, w, k) && |s| >= 2
    requires l2 == l.(head := s[1],
                      lastHot := if l.lastHot == s[0] then END else l.lastHot,
                      numHot := if m[s[0]].hot then l.numHot - 1 else l.numHot,
                      numNodes := l.numNodes - 1)
    requires m2 == m[s[1] := m[s[1]].(prev := END)][s[0] := UNLINKED]
    ensures LinkedAs(s[1..], l2, m2, w[s[0] := -1], k)
    ensures SameOff(m, m2, w, k)
  {
    var h, s2, w2 := l.numHot, s[1..], w[s[0] := -1];
    assert m[s[0]] == Expected(s, 0, h);
    assert w[s[0]] == k && w[s[1]] == k;
    assert Owned(s2, w2, k) by {
      OwnedDropHead(s, w, k);
    }
    assert Chained(s2, l2.numHot, m2) by {
      ChainedDropHead(s, h, m, l2.numHot, m2);
    }
    assert Shaped(s2, l2) by {
      NoEnd(s, w, k);
      RemoveHeadShaped(s, l, m[s[0]].hot, l2);
    }
    assert SameOff(m, m2, w, k) by {
      var m1 := m[s[1] := m[s[1]].(prev := END)];
      SameOffUpdate(m, w, k, s[1], m[s[1]].(prev := END));
      SameOffUpdate(m1, w, k, s[0], UNLINKED);
      SameOffTrans(m, m1, m2, w, k);
    }
  }

  lemma {:induction false} RemoveTailShaped(s: seq<int>, l: ListRec, l2: ListRec)
    requires Shaped(s, l) && HotBelow(l) && |s| >= 2
    requires l2 == l.(tail := s[|s| - 2], numNodes := l.numNodes - 1)
    ensures Shaped(s[..|s| - 1], l2)
  {
    var n, h := |s|, l.numHot;
    if h >= 1 {
      assert s[..n - 1][h - 1] == s[h - 1];
    }
  }

  /** remove_lru_list, tail of a longer list: the previous node becomes
      tail.  The tail is cold because not every node is hot. */
  lemma {:induction false} RemoveTailLinked(s: seq<int>, l: ListRec, m: seq<LruMeta>, w: seq<int>, k: int,
                                            l2: ListRec, m2: seq<LruMeta>)
    requires LinkedAs(s, l, m, w, k) && HotBelow(l) && |s| >= 2
    requires l2 == l.(tail := s[|s| - 2],
                      numHot := if m[s[|s| - 1]].hot then l.numHot - 1 else l.numHot,
                      numNodes := l.numNodes - 1)
    requires m2 == m[s[|s| - 2] := m[s[|s| - 2]].(next := END)][s[|s| - 1] := UNLINKED]
    ensures LinkedAs(s[..|s| - 1], l2, m2, w[s[|s| - 1] := -1], k)
    ensures SameOff(m, m2, w, k)
  {
    var n, h, s2, w2 := |s|, l.numHot, s[..|s| - 1], w[s[|s| - 1] := -1];
    assert m[s[n - 1]] == Expected(s, n - 1, h);
    assert w[s[n - 2]] == k && w[s[n - 1]] == k;
    assert Owned(s2, w2, k) by {
      OwnedDropTail(s, w, k);
    }
    assert Chained(s2, l2.numHot, m2) by {
      ChainedDropTail(s, h, m, m2);
    }
    assert Shaped(s2, l2) by {
      RemoveTailShaped(s, l, l2);
    }
    assert SameOff(m, m2, w, k) by {
      var m1 := m[s[n - 2] := m[s[n - 2]].(next := END)];
      SameOffUpdate(m, w, k, s[n - 2], m[s[n - 2]].(next := END));
      SameOffUpdate(m1, w, k, s[n - 1], UNLINKED);
      SameOffTrans(m, m1, m2, w, k);
    }
  }

  lemma {:induction false} RemoveMiddleShaped(s: seq<int>, l: ListRec, i: nat, l2: ListRec)
    requires Shaped(s, l) && Distinct(s) && END !in s && 0 < i < |s| - 1
    requires l2 == l.(lastHot := if l.lastHot == s[i] then s[i - 1] else l.lastHot,
                      numHot := if i < l.numHot then l.numHot - 1 else l.numHot,
                      numNodes := l.numNodes - 1)
    ensures Shaped(s[..i] + s[i + 1..], l2)
  {
    var h := l.numHot;
    var s2 := s[..i] + s[i + 1..];
    assert s2[0] == s[0] && s2[|s2| - 1] == s[|s| - 1];
    if h >= 1 {
      if h - 1 < i {
        assert s2[h - 1] == s[h - 1];
        assert s[h - 1] != s[i];
      } else if h - 1 == i {
        assert s2[i - 1] == s[i - 1];
      } else {
        assert s[h - 1] != s[i];
        assert s2[h - 2] == s[h - 1];
      }
    }
  }

  /** remove_lru_list, interior node: its neighbours are linked together. */
  lemma {:induction false} RemoveMiddleLinked(s: seq<int>, l: ListRec, m: seq<LruMeta>, w: seq<int>, k: int,
                                              i: nat, l2: ListRec, m2: seq<LruMeta>)
    requires LinkedAs(s, l, m, w, k) && 0 < i < |s| - 1
    requires l2 == l.(lastHot := if l.lastHot == s[i] then s[i - 1] else l.lastHot,
                      numHot := if m[s[i]].hot then l.numHot - 1 else l.numHot,
                      numNodes := l.numNodes - 1)
    requires m2 == m[s[i - 1] := m[s[i - 1]].(next := s[i + 1])]
                    [s[i + 1] := m[s[i + 1]].(prev := s[i - 1])][s[i] := UNLINKED]
    ensures LinkedAs(s[..i] + s[i + 1..], l2, m2, w[s[i] := -1], k)
    ensures SameOff(m, m2, w, k)
  {
    var h, s2, w2 := l.numHot, s[..i] + s[i + 1..], w[s[i] := -1];
    assert m[s[i]] == Expected(s, i, h);
    assert w[s[i - 1]] == k && w[s[i]] == k && w[s[i + 1]] == k;
    assert Owned(s2, w2, k) by {
      OwnedRemove(s, w, k, i);
    }
    assert Chained(s2, l2.numHot, m2) by {
      ChainedDropMiddle(s, h, m, i, l2.numHot, m2);
    }
    assert Shaped(s2, l2) by {
      NoEnd(s, w, k);
      RemoveMiddleShaped(s, l, i, l2);
    }
    assert SameOff(m, m2, w, k) by {
      var m1 := m[s[i - 1] := m[s[i - 1]].(next := s[i + 1])];
      var m3 := m1[s[i + 1] := m[s[i + 1]].(prev := s[i - 1])];
      SameOffUpdate(m, w, k, s[i - 1], m[s[i - 1]].(next := s[i + 1]));
      SameOffUpdate(m1, w, k, s[i + 1], m[s[i + 1]].(prev := s[i - 1]));
      SameOffTrans(m, m1, m3, w, k);
      SameOffUpdate(m3, w, k, s[i], UNLINKED);
      SameOffTrans(m, m3, m2, w, k);
    }
  }

  /** balance_lru_list: one node at the hot/cold boundary changes its hot
      flag and the hot count moves to h2, one away from the old count. */
  lemma {:induction false} BalanceLinked(s: seq<int>, l: ListRec, m: seq<LruMeta>, w: seq<int>, k: int,
                                         h2: int, l2: ListRec, m2: seq<LruMeta>)
    requires LinkedAs(s, l, m, w, k) && l.trackHot
    requires 0 <= h2 <= |s| && (h2 == l.numHot + 1 || h2 == l.numHot - 1)
    requires l2 == l.(numHot := h2, lastHot := if h2 == 0 then END else s[h2 - 1])
    requires var x := if h2 > l.numHot then l.numHot else h2;
             m2 == m[s[x] := m[s[x]].(hot := h2 > l.numHot)]
    ensures LinkedAs(s, l2, m2, w, k)
    ensures SameOff(m, m2, w, k)
  {
    ChainedHotShift(s, l.numHot, m, h2, m2);
    var x := if h2 > l.numHot then l.numHot else h2;
    SameOffUpdate(m, w, k, s[x], m[s[x]].(hot := h2 > l.numHot));
  }

  // ---------------------------------------------------------------------
  // All lists at once
  // ---------------------------------------------------------------------

  /** _lru_init: an empty list. */
  function EmptyRec(trackHot: bool): (l: ListRec)
    ensures Shaped([], l) && l.trackHot == trackHot && HotBelow(l)
  {
    ListRec(0, END, END, 0, END, trackHot)
  }

  /** Line c is on no list, with END links and cold, or it is on the list
      w[c] records. */
  ghost predicate LineOk(cs: seq<seq<int>>, m: seq<LruMeta>, w: seq<int>, c: int)
    requires 0 <= c < |w| == |m|
  {
    if w[c] == -1 then m[c] == UNLINKED else 0 <= w[c] < |cs| && c in cs[w[c]]
  }

  /** Every list k agrees with cs[k]; w records the list of every line on
      one, and a line on no list has END links and is cold. */
  ghost predicate Table(cs: seq<seq<int>>, ls: seq<ListRec>, m: seq<LruMeta>, w: seq<int>)
  {
    |cs| == |ls| && |w| == |m| <= END &&
    (forall k {:trigger LinkedAs(cs[k], ls[k], m, w, k)} :: 0 <= k < |cs| ==> LinkedAs(cs[k], ls[k], m, w, k)) &&
    (forall c {:trigger LineOk(cs, m, w, c)} :: 0 <= c < |w| ==> LineOk(cs, m, w, c))
  }

  /** The lines of one list, and the lines on no list, as the table
      records them. */
  lemma TableLines(cs: seq<seq<int>>, ls: seq<ListRec>, m: seq<LruMeta>, w: seq<int>, k: int)
    requires Table(cs, ls, m, w) && 0 <= k < |cs|
    ensures forall x :: 0 <= x < |w| && w[x] == k ==> x in cs[k]
    ensures forall x :: 0 <= x < |w| && w[x] == -1 ==> m[x] == UNLINKED
  {
    forall x | 0 <= x < |w|
      ensures w[x] == k ==> x in cs[k]
      ensures w[x] == -1 ==> m[x] == UNLINKED
    {
      assert LineOk(cs, m, w, x);
    }
  }

  /** Replacing list k keeps the table when only list k's lines and lines
      entering or leaving list k change. */
  lemma {:induction false} TableReplace(cs: seq<seq<int>>, ls: seq<ListRec>, m: seq<LruMeta>, w: seq<int>, k: int,
                                        s2: seq<int>, l2: ListRec, m2: seq<LruMeta>, w2: seq<int>)
    requires Table(cs, ls, m, w) && 0 <= k < |cs|
    requires LinkedAs(s2, l2, m2, w2, k) && |w2| == |w|
    requires forall x :: 0 <= x < |w| && w2[x] != w[x] ==>
               (w[x] == -1 && w2[x] == k) || (w[x] == k && w2[x] == -1)
    requires forall x :: 0 <= x < |w| && w[x] != k && w2[x] != k ==> m2[x] == m[x]
    requires forall x :: 0 <= x < |w| && w2[x] == k ==> x in s2
    requires forall x :: 0 <= x < |w| && w2[x] == -1 ==> m2[x] == UNLINKED
    ensures Table(cs[k := s2], ls[k := l2], m2, w2)
  {
    var cs2, ls2 := cs[k := s2], ls[k := l2];
    forall j | 0 <= j < |cs2|
      ensures LinkedAs(cs2[j], ls2[j], m2, w2, j)
    {
      if j != k {
        assert LinkedAs(cs[j], ls[j], m, w, j);
        LinkedAsFrame(cs[j], ls[j], m, w, j, m2, w2);
      }
    }
    forall c | 0 <= c < |w2|
      ensures LineOk(cs2, m2, w2, c)
    {
      assert LineOk(cs, m, w, c);
      if w2[c] != k && w2[c] != -1 {
        assert w2[c] == w[c];
      }
    }
  }

  /** add_lru_head keeps the table. */
  lemma {:induction false} TableAddHead(cs: seq<seq<int>>, ls: seq<ListRec>, m: seq<LruMeta>, w: seq<int>, k: int,
                                        c: int, l2: ListRec, m2: seq<LruMeta>)
    requires Table(cs, ls, m, w) && 0 <= k < |cs| && LinkedAs(cs[k], ls[k], m, w, k)
    requires 0 <= c < |m| && w[c] == -1
    requires var s, l := cs[k], ls[k];
      (|s| == 0 ==> m2 == m[c := UNLINKED] && l2 == l.(head := c, tail := c, numNodes := 1)) &&
      (|s| > 0 ==>
        m2 == m[c := LruMeta(END, s[0], l.trackHot)][s[0] := m[s[0]].(prev := c)] &&
        l2 == l.(head := c, numNodes := |s| + 1,
                 numHot := if l.trackHot then l.numHot + 1 else l.numHot,
                 lastHot := if l.trackHot && !m[s[0]].hot then c else l.lastHot))
    ensures Table(cs[k := [c] + cs[k]], ls[k := l2], m2, w[c := k])
  {
    var s := cs[k];
    assert LinkedAs(s, ls[k], m, w, k);
    AddHeadLinked(s, ls[k], m, w, k, c, l2, m2);
    var w2 := w[c := k];
    TableLines(cs, ls, m, w, k);
    assert forall x :: 0 <= x < |w| && w2[x] == k ==> x in [c] + s;
    TableReplace(cs, ls, m, w, k, [c] + s, l2, m2, w2);
  }

  /** remove_lru_list keeps the table, given what the case lemmas show
      about list k without its i-th line. */
  lemma {:induction false} TableRemove(cs: seq<seq<int>>, ls: seq<ListRec>, m: seq<LruMeta>, w: seq<int>, k: int,
                                       i: nat, s2: seq<int>, l2: ListRec, m2: seq<LruMeta>)
    requires Table(cs, ls, m, w) && 0 <= k < |cs| && LinkedAs(cs[k], ls[k], m, w, k) && i < |cs[k]|
    requires s2 == cs[k][..i] + cs[k][i + 1..]
    requires LinkedAs(s2, l2, m2, w[cs[k][i] := -1], k)
    requires m2[cs[k][i]] == UNLINKED && SameOff(m, m2, w, k)
    ensures Table(cs[k := s2], ls[k := l2], m2, w[cs[k][i] := -1])
  {
    var s, c := cs[k], cs[k][i];
    var w2 := w[c := -1];
    assert w[c] == k by {
      assert LinkedAs(s, ls[k], m, w, k);
    }
    assert forall x :: 0 <= x < |w| && w2[x] == k ==> x in s2 by {
      forall x | 0 <= x < |w| && w2[x] == k
        ensures x in s2
      {
        assert LinkedAs(s, ls[k], m, w, k);
        assert LineOk(cs, m, w, x);
        var j :| 0 <= j < |s| && s[j] == x;
        if j < i {
          assert s2[j] == x;
        } else {
          assert j != i;
          assert s2[j - 1] == x;
        }
      }
    }
    assert forall x :: 0 <= x < |w| && w2[x] == -1 ==> m2[x] == UNLINKED by {
      forall x | 0 <= x < |w| && w2[x] == -1
        ensures m2[x] == UNLINKED
      {
        if x != c {
          assert w[x] == -1 && LineOk(cs, m, w, x);
        }
      }
    }
    TableReplace(cs, ls, m, w, k, s2, l2, m2, w2);
  }

  /** remove_lru_list, case 2, on list k alone. */
  lemma {:induction false} HeadOfTable(cs: seq<seq<int>>, ls: seq<ListRec>, m: seq<LruMeta>, w: seq<int>, k: int)
    requires Table(cs, ls, m, w) && 0 <= k < |cs| && |cs[k]| >= 2
    ensures var s, l := cs[k], ls[k];
      0 <= s[0] < |m| && 0 <= s[1] < |m| &&
      var m2 := m[s[1] := m[s[1]].(prev := END)][s[0] := UNLINKED];
      LinkedAs(s[1..],
               l.(head := s[1],
                  lastHot := if l.lastHot == s[0] then END else l.lastHot,
                  numHot := if m[s[0]].hot then l.numHot - 1 else l.numHot,
                  numNodes := l.numNodes - 1),
               m2, w[s[0] := -1], k) &&
      SameOff(m, m2, w, k) && m2[s[0]] == UNLINKED
  {
    var s, l := cs[k], ls[k];
    assert LinkedAs(s, l, m, w, k);
    var l2 := l.(head := s[1],
                 lastHot := if l.lastHot == s[0] then END else l.lastHot,
                 numHot := if m[s[0]].hot then l.numHot - 1 else l.numHot,
                 numNodes := l.numNodes - 1);
    var m2 := m[s[1] := m[s[1]].(prev := END)][s[0] := UNLINKED];
    RemoveHeadLinked(s, l, m, w, k, l2, m2);
  }

  /** remove_lru_list, case 2, on the whole table. */
  lemma {:induction false} TableRemoveHead(cs: seq<seq<int>>, ls: seq<ListRec>, m: seq<LruMeta>, w: seq<int>, k: int)
    requires Table(cs, ls, m, w) && 0 <= k < |cs| && |cs[k]| >= 2
    ensures var s, l := cs[k], ls[k];
      0 <= s[0] < |m| && 0 <= s[1] < |m| &&
      Table(cs[k := s[1..]],
            ls[k := l.(head := s[1],
                       lastHot := if l.lastHot == s[0] then END else l.lastHot,
                       numHot := if m[s[0]].hot then l.numHot - 1 else l.numHot,
                       numNodes := l.numNodes - 1)],
            m[s[1] := m[s[1]].(prev := END)][s[0] := UNLINKED],
            w[s[0] := -1])
  {
    HeadOfTable(cs, ls, m, w, k);
    var s, l := cs[k], ls[k];
    var l2 := l.(head := s[1],
                 lastHot := if l.lastHot == s[0] then END else l.lastHot,
                 numHot := if m[s[0]].hot then l.numHot - 1 else l.numHot,
                 numNodes := l.numNodes - 1);
    var m2 := m[s[1] := m[s[1]].(prev := END)][s[0] := UNLINKED];
    assert s[..0] + s[1..] == s[1..];
    assert LinkedAs(s, l, m, w, k);
    TableRemove(cs, ls, m, w, k, 0, s[1..], l2, m2);
  }

  /** remove_lru_list, case 3, on list k alone. */
  lemma {:induction false} TailOfTable(cs: seq<seq<int>>, ls: seq<ListRec>, m: seq<LruMeta>, w: seq<int>, k: int)
    requires Table(cs, ls, m, w) && 0 <= k < |cs| && |cs[k]| >= 2 && HotBelow(ls[k])
    ensures var s, l, n := cs[k], ls[k], |cs[k]|;
      0 <= s[n - 2] < |m| && 0 <= s[n - 1] < |m| &&
      var m2 := m[s[n - 2] := m[s[n - 2]].(next := END)][s[n - 1] := UNLINKED];
      LinkedAs(s[..n - 1],
               l.(tail := s[n - 2],
                  numHot := if m[s[n - 1]].hot then l.numHot - 1 else l.numHot,
                  numNodes := l.numNodes - 1),
               m2, w[s[n - 1] := -1], k) &&
      SameOff(m, m2, w, k) && m2[s[n - 1]] == UNLINKED
  {
    var s, l, n := cs[k], ls[k], |cs[k]|;
    assert LinkedAs(s, l, m, w, k);
    var l2 := l.(tail := s[n - 2],
                 numHot := if m[s[n - 1]].hot then l.numHot - 1 else l.numHot,
                 numNodes := l.numNodes - 1);
    var m2 := m[s[n - 2] := m[s[n - 2]].(next := END)][s[n - 1] := UNLINKED];
    RemoveTailLinked(s, l, m, w, k, l2, m2);
  }

  /** remove_lru_list, case 3, on the whole table. */
  lemma {:induction false} TableRemoveTail(cs: seq<seq<int>>, ls: seq<ListRec>, m: seq<LruMeta>, w: seq<int>, k: int)
    requires Table(cs, ls, m, w) && 0 <= k < |cs| && |cs[k]| >= 2 && HotBelow(ls[k])
    ensures var s, l, n := cs[k], ls[k], |cs[k]|;
      0 <= s[n - 2] < |m| && 0 <= s[n - 1] < |m| &&
      Table(cs[k := s[..n - 1]],
            ls[k := l.(tail := s[n - 2],
                       numHot := if m[s[n - 1]].hot then l.numHot - 1 else l.numHot,
                       numNodes := l.numNodes - 1)],
            m[s[n - 2] := m[s[n - 2]].(next := END)][s[n - 1] := UNLINKED],
            w[s[n - 1] := -1])
  {
    TailOfTable(cs, ls, m, w, k);
    var s, l, n := cs[k], ls[k], |cs[k]|;
    assert LinkedAs(s, l, m, w, k);
    var l2 := l.(tail := s[n - 2],
                 numHot := if m[s[n - 1]].hot then l.numHot - 1 else l.numHot,
                 numNodes := l.numNodes - 1);
    var m2 := m[s[n - 2] := m[s[n - 2]].(next := END)][s[n - 1] := UNLINKED];
    assert s[..n - 1] + s[n..] == s[..n - 1];
    TableRemove(cs, ls, m, w, k, n - 1, s[..n - 1], l2, m2);
  }

  /** remove_lru_list, case 4, on list k alone. */
  lemma {:induction false} MiddleOfTable(cs: seq<seq<int>>, ls: seq<ListRec>, m: seq<LruMeta>, w: seq<int>, k: int,
                                         i: nat)
    requires Table(cs, ls, m, w) && 0 <= k < |cs| && 0 < i < |cs[k]| - 1
    ensures var s, l := cs[k], ls[k];
      0 <= s[i - 1] < |m| && 0 <= s[i] < |m| && 0 <= s[i + 1] < |m| &&
      var m2 := m[s[i - 1] := m[s[i - 1]].(next := s[i + 1])]
                 [s[i + 1] := m[s[i + 1]].(prev := s[i - 1])][s[i] := UNLINKED];
      LinkedAs(s[..i] + s[i + 1..],
               l.(lastHot := if l.lastHot == s[i] then s[i - 1] else l.lastHot,
                  numHot := if m[s[i]].hot then l.numHot - 1 else l.numHot,
                  numNodes := l.numNodes - 1),
               m2, w[s[i] := -1], k) &&
      SameOff(m, m2, w, k) && m2[s[i]] == UNLINKED
  {
    var s, l := cs[k], ls[k];
    assert LinkedAs(s, l, m, w, k);
    var l2 := l.(lastHot := if l.lastHot == s[i] then s[i - 1] else l.lastHot,
                 numHot := if m[s[i]].hot then l.numHot - 1 else l.numHot,
                 numNodes := l.numNodes - 1);
    var m2 := m[s[i - 1] := m[s[i - 1]].(next := s[i + 1])]
               [s[i + 1] := m[s[i + 1]].(prev := s[i - 1])][s[i] := UNLINKED];
    RemoveMiddleLinked(s, l, m, w, k, i, l2, m2);
  }

  /** remove_lru_list, case 4, on the whole table. */
  lemma {:induction false} TableRemoveMiddle(cs: seq<seq<int>>, ls: seq<ListRec>, m: seq<LruMeta>, w: seq<int>, k: int,
                                             i: nat, prev: int, c: int, next: int, l2: ListRec)
    requires Table(cs, ls, m, w) && 0 <= k < |cs| && 0 < i < |cs[k]| - 1
    requires prev == cs[k][i - 1] && c == cs[k][i] && next == cs[k][i + 1] && 0 <= c < |m|
    requires l2 == ls[k].(lastHot := if ls[k].lastHot == c then prev else ls[k].lastHot,
                          numHot := if m[c].hot then ls[k].numHot - 1 else ls[k].numHot,
                          numNodes := ls[k].numNodes - 1)
    ensures 0 <= prev < |m| && 0 <= c < |m| && 0 <= next < |m| &&
      Table(cs[k := cs[k][..i] + cs[k][i + 1..]], ls[k := l2],
            m[prev := m[prev].(next := next)][next := m[next].(prev := prev)][c := UNLINKED],
            w[c := -1])
  {
    MiddleOfTable(cs, ls, m, w, k, i);
    var s, l := cs[k], ls[k];
    assert LinkedAs(s, l, m, w, k);
    var m2 := m[prev := m[prev].(next := next)][next := m[next].(prev := prev)][c := UNLINKED];
    TableRemove(cs, ls, m, w, k, i, s[..i] + s[i + 1..], l2, m2);
  }

  /** balance_lru_list keeps the table. */
  lemma {:induction false} TableBalance(cs: seq<seq<int>>, ls: seq<ListRec>, m: seq<LruMeta>, w: seq<int>, k: int,
                                        l2: ListRec, m2: seq<LruMeta>)
    requires Table(cs, ls, m, w) && 0 <= k < |cs|
    requires LinkedAs(cs[k], l2, m2, w, k) && |m2| == |m|
    requires SameOff(m, m2, w, k)
    ensures Table(cs, ls[k := l2], m2, w)
  {
    TableLines(cs, ls, m, w, k);
    TableReplace(cs, ls, m, w, k, cs[k], l2, m2, w);
    assert cs[k := cs[k]] == cs;
  }

  /** _lru_init on a list that holds no line keeps the table. */
  lemma {:induction false} TableReset(cs: seq<seq<int>>, ls: seq<ListRec>, m: seq<LruMeta>, w: seq<int>, k: int,
                                      trackHot: bool)
    requires Table(cs, ls, m, w) && 0 <= k < |cs| && cs[k] == []
    ensures Table(cs, ls[k := EmptyRec(trackHot)], m, w)
  {
    TableLines(cs, ls, m, w, k);
    TableReplace(cs, ls, m, w, k, [], EmptyRec(trackHot), m, w);
    assert cs[k := []] == cs;
  }
}
