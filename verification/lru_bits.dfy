/**
 * The shard-availability mask of the LRU iterator (ocf_lru.c) and the bit
 * operations on it: __builtin_ffsll, ocf_rotate_right within N bits, and a
 * population count.  The mask is a sequence of N booleans, element j being
 * bit j; bit j stands for shard (lruIdx + j + 1) % N, so after the iterator
 * has advanced, bit N-1 stands for the shard it is on.
 */
module LruBits {
  import opened Arith

  /** __builtin_ffsll: 0 when no bit is set, otherwise one plus the index
      of the lowest set bit. */
  function Ffs(m: seq<bool>): (r: nat)
    ensures r <= |m|
    ensures r == 0 <==> (forall j :: 0 <= j < |m| ==> !m[j])
    ensures r > 0 ==> m[r - 1] && forall j :: 0 <= j < r - 1 ==> !m[j]
  {
    if |m| == 0 then 0
    else if m[0] then 1
    else
      var t := Ffs(m[1..]);
      if t == 0 then 0 else t + 1
  }

  /** ocf_rotate_right(bits, k, N): rotate right within N bits. */
  function RotateRight(m: seq<bool>, k: nat): (r: seq<bool>)
    requires k <= |m|
    ensures |r| == |m|
    ensures forall j :: 0 <= j < |m| ==> r[j] == m[(j + k) % |m|]
  {
    var r := m[k..] + m[..k];
    assert forall j :: 0 <= j < |m| ==> r[j] == m[(j + k) % |m|] by {
      forall j | 0 <= j < |m|
        ensures r[j] == m[(j + k) % |m|]
      {
        if j < |m| - k {
          ModBelow(j + k, |m|);
        } else {
          ModOnce(j + k, |m|);
        }
      }
    }
    r
  }

  /** Number of set bits. */
  function PopCount(m: seq<bool>): nat
  {
    if |m| == 0 then 0 else (if m[0] then 1 else 0) + PopCount(m[1..])
  }

  lemma {:induction false} PopCountAppend(a: seq<bool>, b: seq<bool>)
    ensures PopCount(a + b) == PopCount(a) + PopCount(b)
    decreases |a|
  {
    if |a| > 0 {
      assert (a + b)[1..] == a[1..] + b;
      PopCountAppend(a[1..], b);
    } else {
      assert a + b == b;
    }
  }

  lemma {:induction false} PopCountBound(m: seq<bool>)
    ensures PopCount(m) <= |m|
    ensures PopCount(m) == 0 <==> forall j :: 0 <= j < |m| ==> !m[j]
    decreases |m|
  {
    if |m| > 0 {
      PopCountBound(m[1..]);
      if forall j :: 0 <= j < |m| ==> !m[j] {
        assert forall j :: 0 <= j < |m| - 1 ==> !m[1..][j] by {
          forall j | 0 <= j < |m| - 1 ensures !m[1..][j] {
            assert m[1..][j] == m[j + 1];
          }
        }
      } else if !m[0] {
        var j :| 0 <= j < |m| && m[j];
        assert m[1..][j - 1];
      }
    }
  }

  /** Rotation only renames bits: it keeps the number of set bits. */
  lemma RotatePreservesPopCount(m: seq<bool>, k: nat)
    requires k <= |m|
    ensures PopCount(RotateRight(m, k)) == PopCount(m)
  {
    assert RotateRight(m, k) == m[k..] + m[..k];
    SwapHalvesPopCount(m, k);
  }

  lemma SwapHalvesPopCount(m: seq<bool>, k: nat)
    requires k <= |m|
    ensures PopCount(m[k..] + m[..k]) == PopCount(m)
  {
    PopCountAppend(m[k..], m[..k]);
    assert m == m[..k] + m[k..];
    PopCountAppend(m[..k], m[k..]);
  }

  /** _lru_lru_set_empty on the mask: clear the top bit. */
  function ClearTop(m: seq<bool>): (r: seq<bool>)
    requires |m| > 0
  {
    m[|m| - 1 := false]
  }

  /** Clearing a set top bit removes exactly one set bit and no other. */
  lemma ClearTopPopCount(m: seq<bool>)
    requires |m| > 0 && m[|m| - 1]
    ensures PopCount(ClearTop(m)) == PopCount(m) - 1
    ensures forall j :: 0 <= j < |m| - 1 ==> ClearTop(m)[j] == m[j]
    ensures !ClearTop(m)[|m| - 1]
  {
    var n := |m|;
    assert m == m[..n - 1] + [true];
    assert ClearTop(m) == m[..n - 1] + [false];
    PopCountAppend(m[..n - 1], [true]);
    PopCountAppend(m[..n - 1], [false]);
  }

  /** (1ULL << N) - 1: every one of the N bits set. */
  function AllSet(n: nat): (r: seq<bool>)
    ensures |r| == n && forall j :: 0 <= j < n ==> r[j]
  {
    seq(n, _ => true)
  }

  lemma {:induction false} AllSetPopCount(n: nat)
    ensures PopCount(AllSet(n)) == n
  {
    if n > 0 {
      assert AllSet(n)[1..] == AllSet(n - 1);
      AllSetPopCount(n - 1);
    }
  }

  // ---------------------------------------------------------------------
  // What the mask means: the set of shards still available
  // ---------------------------------------------------------------------

  /** The shards a mask marks available when the iterator is at `idx`. */
  ghost function Avail(idx: nat, m: seq<bool>): set<nat>
    requires |m| > 0
  {
    set j | 0 <= j < |m| && m[j] :: (idx + j + 1) % |m|
  }

  /** A shard available after rotating by `inc` and moving to idx + inc
      was available before. */
  lemma {:induction false} NextLruAvailSubset(idx: nat, m: seq<bool>, inc: nat, x: nat)
    requires 0 < inc <= |m|
    requires x in Avail((idx + inc) % |m|, RotateRight(m, inc))
    ensures x in Avail(idx, m)
  {
    var n, m' := |m|, RotateRight(m, inc);
    var j :| 0 <= j < n && m'[j] && x == ((idx + inc) % n + j + 1) % n;
    var j0 := (j + inc) % n;
    assert m[j0];
    ModAddMod(idx + inc, j + 1, n);
    ModAddMod(j + inc, idx + 1, n);
    assert x == (idx + j0 + 1) % n;
  }

  /** A shard available before is still available after the move. */
  lemma {:induction false} NextLruAvailSuperset(idx: nat, m: seq<bool>, inc: nat, x: nat)
    requires 0 < inc <= |m|
    requires x in Avail(idx, m)
    ensures x in Avail((idx + inc) % |m|, RotateRight(m, inc))
  {
    var n, m' := |m|, RotateRight(m, inc);
    var j :| 0 <= j < n && m[j] && x == (idx + j + 1) % n;
    var j1: nat := if j >= inc then j - inc else j + n - inc;
    if j >= inc {
      ModBelow(j1 + inc, n);
    } else {
      ModOnce(j1 + inc, n);
    }
    assert m'[j1];
    ModAddMod(idx + inc, j1 + 1, n);
    if j < inc {
      ModStep(idx + j + 1, n);
    }
    assert x == ((idx + inc) % n + j1 + 1) % n;
  }

  /** _lru_next_lru: with `inc` = Ffs(mask) > 0 the iterator moves to
      (idx + inc) % N.  Rotating by `inc` keeps the set of available shards,
      the shard moved to is available and marked by the top bit, and the
      shards passed over on the way were not available. */
  lemma {:induction false} NextLruKeepsAvail(idx: nat, m: seq<bool>)
    requires |m| > 0 && Ffs(m) > 0
    ensures Avail((idx + Ffs(m)) % |m|, RotateRight(m, Ffs(m))) == Avail(idx, m)
    ensures (idx + Ffs(m)) % |m| in Avail(idx, m)
    ensures RotateRight(m, Ffs(m))[|m| - 1]
    ensures forall j :: 0 <= j < Ffs(m) - 1 ==> !m[j]
  {
    var n, inc := |m|, Ffs(m);
    NextLruSameAvail(idx, m, inc);
    ModOnce(n - 1 + inc, n);
    assert RotateRight(m, inc)[n - 1] == m[inc - 1];
    NextLruLands(idx, m, inc - 1);
  }

  lemma {:induction false} NextLruSameAvail(idx: nat, m: seq<bool>, inc: nat)
    requires 0 < inc <= |m|
    ensures Avail((idx + inc) % |m|, RotateRight(m, inc)) == Avail(idx, m)
  {
    var a, b := Avail((idx + inc) % |m|, RotateRight(m, inc)), Avail(idx, m);
    forall x | x in a
      ensures x in b
    {
      NextLruAvailSubset(idx, m, inc, x);
    }
    forall x | x in b
      ensures x in a
    {
      NextLruAvailSuperset(idx, m, inc, x);
    }
  }

  lemma {:induction false} NextLruLands(idx: nat, m: seq<bool>, w: nat)
    requires w < |m| && m[w]
    ensures (idx + (w + 1)) % |m| in Avail(idx, m)
  {
    assert (idx + w + 1) % |m| in Avail(idx, m);
    assert idx + w + 1 == idx + (w + 1);
  }

  /** Bit j of the mask stands for shard idx exactly when j is the top bit. */
  lemma ShardOfBit(idx: nat, n: nat, j: nat)
    requires idx < n && j < n
    ensures (idx + j + 1) % n == idx <==> j == n - 1
  {
    if idx + j + 1 < n {
      ModBelow(idx + j + 1, n);
    } else {
      ModOnce(idx + j + 1, n);
    }
  }

  /** _lru_lru_is_empty reads the top bit: it is set exactly when the
      current shard is still available. */
  lemma TopBitIsCurrent(idx: nat, m: seq<bool>)
    requires idx < |m|
    ensures idx in Avail(idx, m) <==> m[|m| - 1]
  {
    var n := |m|;
    ShardOfBit(idx, n, n - 1);
    if idx in Avail(idx, m) {
      var j :| 0 <= j < n && m[j] && (idx + j + 1) % n == idx;
      ShardOfBit(idx, n, j);
    }
  }

  /** _lru_lru_set_empty takes exactly the current shard out of the set of
      available shards. */
  lemma ClearTopAvail(idx: nat, m: seq<bool>)
    requires idx < |m|
    ensures Avail(idx, ClearTop(m)) == Avail(idx, m) - {idx}
  {
    var n, m' := |m|, ClearTop(m);
    forall x | x in Avail(idx, m')
      ensures x in Avail(idx, m) && x != idx
    {
      var j :| 0 <= j < n && m'[j] && x == (idx + j + 1) % n;
      ShardOfBit(idx, n, j);
      assert m[j];
    }
    forall x | x in Avail(idx, m) && x != idx
      ensures x in Avail(idx, m')
    {
      var j :| 0 <= j < n && m[j] && x == (idx + j + 1) % n;
      ShardOfBit(idx, n, j);
      assert m'[j];
    }
  }

  /** No shard is available exactly when no bit is set. */
  lemma AvailEmpty(idx: nat, m: seq<bool>)
    requires |m| > 0
    ensures Avail(idx, m) == {} <==> PopCount(m) == 0
  {
    PopCountBound(m);
    if PopCount(m) != 0 {
      var j :| 0 <= j < |m| && m[j];
      assert (idx + j + 1) % |m| in Avail(idx, m);
    }
  }

  /** The full mask of lru_iter_init makes every shard available. */
  lemma AllSetAvail(idx: nat, n: nat)
    requires idx < n
    ensures forall x :: 0 <= x < n ==> x in Avail(idx, AllSet(n))
  {
    forall x | 0 <= x < n
      ensures x in Avail(idx, AllSet(n))
    {
      var j := if x > idx then x - idx - 1 else x + n - idx - 1;
      if x > idx {
        ModBelow(idx + j + 1, n);
      } else {
        ModOnce(idx + j + 1, n);
      }
      assert AllSet(n)[j] && x == (idx + j + 1) % n;
    }
  }

  /** lru_iter_init starts one shard before start_lru, so the first
      _lru_next_lru on the full mask lands on start_lru. */
  lemma InitThenNext(start: nat, n: nat)
    requires start < n
    ensures Ffs(AllSet(n)) == 1
    ensures ((start + n - 1) % n + 1) % n == start
  {
    if start == 0 {
      ModBelow(n - 1, n);
      ModStep(0, n);
      ModBelow(0, n);
    } else {
      ModOnce(start + n - 1, n);
      ModBelow(start, n);
    }
  }

  /** Steps forward from shard a to shard b on a ring of n shards, in
      1..n (n when b == a). */
  function Dist(a: nat, b: nat, n: nat): (d: nat)
    requires a < n && b < n
    ensures 1 <= d <= n
  {
    (b + n - a - 1) % n + 1
  }

  /** Going j + 1 steps forward from a takes Dist j + 1 steps. */
  lemma DistOf(a: nat, j: nat, n: nat)
    requires a < n && j < n
    ensures Dist(a, (a + j + 1) % n, n) == j + 1
  {
    var b := (a + j + 1) % n;
    if a + j + 1 < n {
      ModBelow(a + j + 1, n);
      ModOnce(b + n - a - 1, n);
    } else {
      ModOnce(a + j + 1, n);
      ModBelow(b + n - a - 1, n);
    }
  }

  /** _lru_next_lru visits round robin: the shard it moves to is the
      nearest available shard after the current one. */
  lemma NextLruNearest(idx: nat, m: seq<bool>, x: nat)
    requires idx < |m| && Ffs(m) > 0 && x in Avail(idx, m)
    ensures x < |m| && Ffs(m) <= Dist(idx, x, |m|)
  {
    var n, f := |m|, Ffs(m);
    var j :| 0 <= j < n && m[j] && x == (idx + j + 1) % n;
    assert f - 1 <= j;
    DistOf(idx, j, n);
  }
}
