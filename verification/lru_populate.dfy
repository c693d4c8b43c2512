// Filling the freelist from the collision table (ocf_lru_populate and its
// scan next_phys_invalid).  The table is walked in physical order; each
// physical line maps to a logical line (ocf_metadata_map_phy2lg), and a
// logical line with no valid sector goes to the head of the clean
// freelist list of its shard.
module LruPopulate {
  import opened LruList
  import opened Lru

  /** p2l maps every physical line to a logical line of the table, and
      valid tells for each logical line whether any sector is valid
      (metadata_test_valid_any). */
  ghost predicate Mapping(valid: seq<bool>, p2l: seq<int>)
  {
    |p2l| == |valid| && forall i :: 0 <= i < |p2l| ==> 0 <= p2l[i] < |valid|
  }

  /** No two physical lines map to the same logical line. */
  ghost predicate Injective(p2l: seq<int>)
  {
    forall i, j :: 0 <= i < j < |p2l| ==> p2l[i] != p2l[j]
  }

  /** The first physical line at or after phys whose logical line is
      invalid, or |p2l| when there is none. */
  ghost function FirstInvalid(valid: seq<bool>, p2l: seq<int>, phys: nat): (r: nat)
    requires Mapping(valid, p2l) && phys <= |p2l|
    ensures phys <= r <= |p2l|
    ensures r < |p2l| ==> !valid[p2l[r]]
    ensures forall j :: phys <= j < r ==> valid[p2l[j]]
    decreases |p2l| - phys
  {
    if phys == |p2l| then phys
    else if !valid[p2l[phys]] then phys
    else FirstInvalid(valid, p2l, phys + 1)
  }

  /** FirstInvalid is the only index with its three properties. */
  lemma {:induction false} FirstInvalidUnique(valid: seq<bool>, p2l: seq<int>, phys: nat, r: nat)
    requires Mapping(valid, p2l) && phys <= r <= |p2l|
    requires r < |p2l| ==> !valid[p2l[r]]
    requires forall j :: phys <= j < r ==> valid[p2l[j]]
    ensures r == FirstInvalid(valid, p2l, phys)
    decreases r - phys
  {
    if phys < r {
      assert valid[p2l[phys]];
      FirstInvalidUnique(valid, p2l, phys + 1, r);
    }
  }

  /** next_phys_invalid as written: the loop also stops when phys + 1
      reaches the table size, so when every line from phys to the end is
      valid it returns the last line, which is valid, instead of the
      table size. */
  method NextPhysInvalidAsWritten(valid: seq<bool>, p2l: seq<int>, phys: nat) returns (r: nat)
    requires Mapping(valid, p2l) && phys <= |p2l|
    ensures phys < |p2l| && FirstInvalid(valid, p2l, phys) == |p2l| ==> r == |p2l| - 1
    ensures !(phys < |p2l| && FirstInvalid(valid, p2l, phys) == |p2l|) ==>
              r == FirstInvalid(valid, p2l, phys)
  {
    var n := |p2l|;
    if phys == n {
      return n;
    }
    r := phys;
    var lg := p2l[r];
    while valid[lg] && r + 1 < n
      invariant phys <= r < n && lg == p2l[r]
      invariant forall j :: phys <= j < r ==> valid[p2l[j]]
      decreases n - r
    {
      r := r + 1;
      lg := p2l[r];
    }
    if !valid[lg] {
      FirstInvalidUnique(valid, p2l, phys, r);
    } else {
      FirstInvalidUnique(valid, p2l, phys, n);
    }
  }

  /** next_phys_invalid with the loop bounded by the table size alone: the
      first physical line at or after phys whose logical line is invalid,
      or the table size when there is none. */
  method NextPhysInvalid(valid: seq<bool>, p2l: seq<int>, phys: nat) returns (r: nat)
    requires Mapping(valid, p2l) && phys <= |p2l|
    ensures r == FirstInvalid(valid, p2l, phys)
  {
    var n := |p2l|;
    if phys == n {
      return n;
    }
    r := phys;
    var lg := p2l[r];
    while valid[lg]
      invariant phys <= r < n && lg == p2l[r]
      invariant forall j :: phys <= j < r ==> valid[p2l[j]]
      decreases n - r
    {
      r := r + 1;
      if r == n {
        break;
      }
      lg := p2l[r];
    }
    FirstInvalidUnique(valid, p2l, phys, r);
  }

  /** A two-line table whose second physical line is valid: scanning from
      line 1 the code as written stops on line 1, where the intended scan
      reports that no invalid line is left. */
  method LastLineValidScan() returns (asWritten: nat, intended: nat)
    ensures asWritten == 1 && intended == 2
  {
    var valid, p2l := [false, true], [0, 1];
    assert FirstInvalid(valid, p2l, 2) == 2;
    asWritten := NextPhysInvalidAsWritten(valid, p2l, 1);
    intended := NextPhysInvalid(valid, p2l, 1);
  }

  // ---------------------------------------------------------------------
  // The invalid lines in physical order
  // ---------------------------------------------------------------------

  /** The logical lines of physical lines lo .. hi-1 that are invalid, in
      physical order. */
  ghost function Invalids(valid: seq<bool>, p2l: seq<int>, lo: nat, hi: nat): (r: seq<int>)
    requires Mapping(valid, p2l) && lo <= hi <= |p2l|
    ensures |r| <= hi - lo
    ensures forall q :: 0 <= q < |r| ==> 0 <= r[q] < |valid| && !valid[r[q]]
    decreases hi - lo
  {
    if lo == hi then []
    else Invalids(valid, p2l, lo, hi - 1) + (if valid[p2l[hi - 1]] then [] else [p2l[hi - 1]])
  }

  /** Every invalid line of the range is listed. */
  lemma {:induction false} InvalidsHas(valid: seq<bool>, p2l: seq<int>, lo: nat, hi: nat, j: nat)
    requires Mapping(valid, p2l) && lo <= j < hi <= |p2l| && !valid[p2l[j]]
    ensures p2l[j] in Invalids(valid, p2l, lo, hi)
    decreases hi - lo
  {
    if j < hi - 1 {
      InvalidsHas(valid, p2l, lo, hi - 1, j);
    }
  }

  /** A line mapped from beyond the range is not listed. */
  lemma {:induction false} InvalidsAvoid(valid: seq<bool>, p2l: seq<int>, lo: nat, hi: nat, m: nat)
    requires Mapping(valid, p2l) && Injective(p2l) && lo <= hi <= m < |p2l|
    ensures p2l[m] !in Invalids(valid, p2l, lo, hi)
    decreases hi - lo
  {
    if lo < hi {
      InvalidsAvoid(valid, p2l, lo, hi - 1, m);
      assert p2l[hi - 1] != p2l[m];
    }
  }

  /** A run of valid lines adds nothing to the list. */
  lemma {:induction false} InvalidsSkip(valid: seq<bool>, p2l: seq<int>, lo: nat, mid: nat, hi: nat)
    requires Mapping(valid, p2l) && lo <= mid <= hi <= |p2l|
    requires forall j :: mid <= j < hi ==> valid[p2l[j]]
    ensures Invalids(valid, p2l, lo, hi) == Invalids(valid, p2l, lo, mid)
    decreases hi - mid
  {
    if mid < hi {
      InvalidsSkip(valid, p2l, lo, mid, hi - 1);
    }
  }

  /** Lengthening the range never shortens the list. */
  lemma {:induction false} InvalidsGrow(valid: seq<bool>, p2l: seq<int>, lo: nat, mid: nat, hi: nat)
    requires Mapping(valid, p2l) && lo <= mid <= hi <= |p2l|
    ensures |Invalids(valid, p2l, lo, mid)| <= |Invalids(valid, p2l, lo, hi)|
    decreases hi - mid
  {
    if mid < hi {
      InvalidsGrow(valid, p2l, lo, mid, hi - 1);
    }
  }

  /** One step of the populate loop: the scan from phys lands on the next
      invalid line, whose logical line extends the list. */
  lemma ScanStep(valid: seq<bool>, p2l: seq<int>, phys: nat, found: nat)
    requires Mapping(valid, p2l) && phys <= |p2l| && found == FirstInvalid(valid, p2l, phys)
    requires found < |p2l|
    ensures Invalids(valid, p2l, 0, found + 1) == Invalids(valid, p2l, 0, phys) + [p2l[found]]
  {
    InvalidsSkip(valid, p2l, 0, phys, found);
  }

  /** The scan from phys finds nothing exactly when no invalid line lies
      beyond phys. */
  lemma ScanEnd(valid: seq<bool>, p2l: seq<int>, phys: nat, found: nat)
    requires Mapping(valid, p2l) && phys <= |p2l| && found == FirstInvalid(valid, p2l, phys)
    ensures found == |p2l| ==> Invalids(valid, p2l, 0, |p2l|) == Invalids(valid, p2l, 0, phys)
    ensures found < |p2l| ==> |Invalids(valid, p2l, 0, |p2l|)| > |Invalids(valid, p2l, 0, phys)|
  {
    if found == |p2l| {
      InvalidsSkip(valid, p2l, 0, phys, found);
    } else {
      ScanStep(valid, p2l, phys, found);
      InvalidsGrow(valid, p2l, 0, found + 1, |p2l|);
    }
  }

  // ---------------------------------------------------------------------
  // ocf_lru_populate with the scan as written
  // ---------------------------------------------------------------------

  /** The logical line of the last physical line is valid. */
  ghost predicate LastValid(valid: seq<bool>, p2l: seq<int>)
    requires Mapping(valid, p2l)
  {
    |p2l| > 0 && valid[p2l[|p2l| - 1]]
  }

  /** The line choices and ENV_BUG_ON checks of ocf_lru_populate when it
      runs next_phys_invalid as written, without the list updates: placed
      are the lines taken in order, bug whether an ENV_BUG_ON fires (the
      run stops there).  With an invalid last physical line it places
      exactly the invalid lines and passes iff numFree counts them.  With
      a valid last physical line it passes only when numFree is one more
      than that count, and then it also places the valid last line. */
  method PopulateAsWritten(valid: seq<bool>, p2l: seq<int>, numFree: nat) returns (placed: seq<int>, bug: bool)
    requires Mapping(valid, p2l)
    ensures !bug <==> numFree == |Invalids(valid, p2l, 0, |p2l|)| + (if LastValid(valid, p2l) then 1 else 0)
    ensures !bug ==> placed == Invalids(valid, p2l, 0, |p2l|) +
                               (if LastValid(valid, p2l) then [p2l[|p2l| - 1]] else [])
  {
    var n := |p2l|;
    ghost var all := Invalids(valid, p2l, 0, n);
    var phys := 0;
    placed := [];
    // pastLast: the valid last line has been placed and phys is n
    ghost var pastLast := false;
    var i := 0;
    while i < numFree
      invariant 0 <= i <= numFree && phys <= n
      invariant !pastLast ==> placed == Invalids(valid, p2l, 0, phys) && |placed| == i
      invariant !pastLast && phys > 0 ==> !valid[p2l[phys - 1]]
      invariant pastLast ==> phys == n && LastValid(valid, p2l) && placed == all + [p2l[n - 1]] &&
                             i == |all| + 1
    {
      var at := NextPhysInvalidAsWritten(valid, p2l, phys);
      if at == n {
        if !pastLast {
          ScanEnd(valid, p2l, phys, FirstInvalid(valid, p2l, phys));
        }
        return placed, true;
      }
      if !pastLast {
        var first := FirstInvalid(valid, p2l, phys);
        ScanEnd(valid, p2l, phys, first);
        if first < n {
          ScanStep(valid, p2l, phys, first);
        } else {
          pastLast := true;
        }
      }
      placed := placed + [p2l[at]];
      phys := at + 1;
      i := i + 1;
    }
    var last := NextPhysInvalidAsWritten(valid, p2l, phys);
    bug := last != n;
    if !pastLast {
      ScanEnd(valid, p2l, phys, FirstInvalid(valid, p2l, phys));
    }
  }

  /** The two-line table whose second physical line is valid, with one
      invalid line: asked for that one line, the populate as written
      hits the final ENV_BUG_ON; asked for two, it passes and puts the
      valid line 1 on the freelist.  The populate of this model passes
      exactly when asked for the one invalid line. */
  method LastLineValidPopulate() returns (bugOne: bool, bugTwo: bool, placedTwo: seq<int>, ghost intended: nat)
    ensures bugOne && !bugTwo && placedTwo == [0, 1] && intended == 1
  {
    var valid, p2l := [false, true], [0, 1];
    assert Invalids(valid, p2l, 0, 2) == [0] by {
      assert Invalids(valid, p2l, 0, 1) == [0];
    }
    assert LastValid(valid, p2l);
    var placedOne;
    placedOne, bugOne := PopulateAsWritten(valid, p2l, 1);
    placedTwo, bugTwo := PopulateAsWritten(valid, p2l, 2);
    intended := |Invalids(valid, p2l, 0, 2)|;
  }

  // ---------------------------------------------------------------------
  // ocf_lru_populate
  // ---------------------------------------------------------------------

  /** The clean freelist list of the shard of line c. */
  function FreeList(e: Engine, c: nat): (k: nat)
    requires e.L >= 1
    ensures e.PartBase(e.U) <= k < e.NumLists()
  {
    e.ListId(e.U, c % e.L, true)
  }

  /** Adding a line to a list of partition p adds one to p's count. */
  lemma AddedCounted(e: Engine, cs: seq<seq<int>>, sizes: seq<int>, p: nat, sh: nat, clean: bool, c: int)
    requires e.Counted(cs, sizes) && p <= e.U && sh < e.L
    ensures var k := e.ListId(p, sh, clean);
            e.Counted(cs[k := [c] + cs[k]], sizes[p := sizes[p] + 1])
  {
    var k := e.ListId(p, sh, clean);
    var cs1, sizes1 := cs[k := [c] + cs[k]], sizes[p := sizes[p] + 1];
    forall q | 0 <= q <= e.U
      ensures sizes1[q] == e.PartCount(cs1, q)
    {
      e.PartCountUpdate(cs, k, [c] + cs[k], q);
      e.ListIdPart(p, sh, clean, q);
    }
  }

  /** The body of the populate loop for logical line c: it joins the
      freelist partition and goes to the head of the clean freelist list
      of its shard, which is then balanced. */
  method PlaceFree(e: Engine, c: nat)
    requires e.Linked() && e.AllHotBelow() && e.AllPlaced(e.partId[..], e.where)
    requires c < e.N && e.where[c] == -1
    modifies e.meta, e.lists, e.partId, e`contents, e`where
    ensures e.Linked() && e.AllHotBelow() && e.AllPlaced(e.partId[..], e.where)
    ensures e.contents == old(e.contents)[FreeList(e, c) := [c] + old(e.contents[FreeList(e, c)])]
    ensures e.where == old(e.where)[c := FreeList(e, c)]
    ensures e.partId[..] == old(e.partId[..])[c := e.U]
  {
    var k := FreeList(e, c);
    ghost var pid0, w0 := e.partId[..], e.where;
    e.partId[c] := e.U;
    assert e.partId[..] == pid0[c := e.U];
    e.AddHead(k, c);
    ghost var ls1 := e.lists[..];
    e.Balance(k);
    forall j | 0 <= j < e.NumLists()
      ensures HotBelow(e.lists[j])
    {
      if j != k {
        assert e.lists[j] == ls1[j] == old(e.lists[j]);
      }
    }
    e.MovedPlaced(pid0, w0, c, e.U, true);
  }

  /** The state the populate loop keeps after placing the lines of
      `added`, given the where map w0, partition ids pid0, lists cs0 and
      sizes sizes0 it started from: the placed lines sit on the clean
      freelist lists of their shards in the freelist partition, the
      freelist holds |added| lines, and nothing else has changed. */
  ghost predicate Filled(e: Engine, w0: seq<int>, pid0: seq<int>, cs0: seq<seq<int>>,
                         sizes0: seq<int>, added: seq<int>)
    reads e, e.meta, e.lists, e.partId, e.currSize
  {
    e.Linked() && e.AllHotBelow() && e.currSize[..] == sizes0 &&
    FilledAs(e, e.where, e.partId[..], e.contents, w0, pid0, cs0, sizes0, added)
  }

  /** Filled on snapshots of the where map, partition ids and lists. */
  ghost predicate FilledAs(e: Engine, w: seq<int>, pid: seq<int>, cs: seq<seq<int>>,
                           w0: seq<int>, pid0: seq<int>, cs0: seq<seq<int>>,
                           sizes0: seq<int>, added: seq<int>)
  {
    e.AllPlaced(pid, w) && |w| == e.N && |pid| == e.N &&
    |w0| == e.N && |pid0| == e.N && |cs0| == e.NumLists() && |sizes0| == e.U + 1 &&
    e.Counted(cs, sizes0[e.U := |added|]) &&
    (forall c :: 0 <= c < e.N ==>
       w[c] == (if c in added then FreeList(e, c) else w0[c]) &&
       pid[c] == (if c in added then e.U else pid0[c])) &&
    (forall k :: 0 <= k < e.PartBase(e.U) ==> cs[k] == cs0[k])
  }

  /** Once the freelist size counts the placed lines, the engine is valid. */
  lemma FilledValid(e: Engine, w0: seq<int>, pid0: seq<int>, cs0: seq<seq<int>>,
                    sizes0: seq<int>, added: seq<int>)
    requires e.Linked() && e.AllHotBelow()
    requires FilledAs(e, e.where, e.partId[..], e.contents, w0, pid0, cs0, sizes0, added)
    requires e.currSize[..] == sizes0[e.U := |added|]
    ensures e.Valid()
  {
  }

  /** One turn of the populate loop, from the line the scan found. */
  method PlaceNext(e: Engine, c: nat, ghost w0: seq<int>, ghost pid0: seq<int>,
                   ghost cs0: seq<seq<int>>, ghost sizes0: seq<int>, ghost added: seq<int>)
    requires Filled(e, w0, pid0, cs0, sizes0, added)
    requires c < e.N && w0[c] == -1 && c !in added
    modifies e.meta, e.lists, e.partId, e`contents, e`where
    ensures Filled(e, w0, pid0, cs0, sizes0, added + [c])
  {
    ghost var cs1 := e.contents;
    assert e.where[c] == -1;
    PlaceFree(e, c);
    AddedCounted(e, cs1, sizes0[e.U := |added|], e.U, c % e.L, true, c);
    assert sizes0[e.U := |added|][e.U := |added| + 1] == sizes0[e.U := |added + [c]|];
  }

  /** One turn of the populate loop: the scan from phys either finds the
      next invalid line, which is placed, or runs off the end of the
      table, which leaves the engine as it was. */
  method PlaceTurn(e: Engine, valid: seq<bool>, p2l: seq<int>, phys: nat,
                   ghost w0: seq<int>, ghost pid0: seq<int>, ghost cs0: seq<seq<int>>,
                   ghost sizes0: seq<int>, ghost added: seq<int>)
      returns (found: bool, at: nat)
    requires Filled(e, w0, pid0, cs0, sizes0, added)
    requires |valid| == e.N && Mapping(valid, p2l) && Injective(p2l)
    requires forall c :: 0 <= c < e.N && !valid[c] ==> w0[c] == -1
    requires phys <= e.N && added == Invalids(valid, p2l, 0, phys)
    modifies e.meta, e.lists, e.partId, e`contents, e`where
    ensures !found ==> |Invalids(valid, p2l, 0, e.N)| == |added| && Filled(e, w0, pid0, cs0, sizes0, added)
    ensures found ==> at < e.N && Invalids(valid, p2l, 0, at + 1) == added + [p2l[at]] &&
                      Filled(e, w0, pid0, cs0, sizes0, added + [p2l[at]])
  {
    at := NextPhysInvalid(valid, p2l, phys);
    ScanEnd(valid, p2l, phys, at);
    found := at < e.N;
    if found {
      ScanStep(valid, p2l, phys, at);
      InvalidsAvoid(valid, p2l, 0, phys, at);
      PlaceNext(e, p2l[at], w0, pid0, cs0, sizes0, added);
    }
  }

  /** The loop of ocf_lru_populate: ok is false when the scan runs out of
      invalid lines before numFree of them are placed.  phys is where the
      scan stands afterwards and `added` the lines placed so far, which are
      the invalid lines before phys. */
  method PlaceLines(e: Engine, valid: seq<bool>, p2l: seq<int>, numFree: nat,
                    ghost w0: seq<int>, ghost pid0: seq<int>, ghost cs0: seq<seq<int>>,
                    ghost sizes0: seq<int>)
      returns (ok: bool, phys: nat, ghost added: seq<int>)
    requires |valid| == e.N && Mapping(valid, p2l) && Injective(p2l)
    requires Filled(e, w0, pid0, cs0, sizes0, [])
    requires forall c :: 0 <= c < e.N && !valid[c] ==> w0[c] == -1
    modifies e.meta, e.lists, e.partId, e`contents, e`where
    ensures phys <= e.N && added == Invalids(valid, p2l, 0, phys)
    ensures Filled(e, w0, pid0, cs0, sizes0, added)
    ensures ok ==> |added| == numFree
    ensures !ok ==> |Invalids(valid, p2l, 0, e.N)| < numFree
  {
    phys := 0;
    added := [];
    var i := 0;
    while i < numFree
      invariant 0 <= i <= numFree && phys <= e.N
      invariant added == Invalids(valid, p2l, 0, phys) && |added| == i
      invariant Filled(e, w0, pid0, cs0, sizes0, added)
    {
      var found, at := PlaceTurn(e, valid, p2l, phys, w0, pid0, cs0, sizes0, added);
      if !found {
        return false, phys, added;
      }
      added := added + [p2l[at]];
      phys := at + 1;
      i := i + 1;
    }
    ok := true;
  }

  /** The last step of ocf_lru_populate: the freelist size becomes the
      number of lines placed. */
  method SetFreeSize(e: Engine, n: nat, ghost w0: seq<int>, ghost pid0: seq<int>,
                     ghost cs0: seq<seq<int>>, ghost sizes0: seq<int>, ghost added: seq<int>)
    requires Filled(e, w0, pid0, cs0, sizes0, added) && |added| == n
    modifies e.currSize
    ensures e.Valid() && e.currSize[..] == sizes0[e.U := n]
  {
    ghost var pid1 := e.partId[..];
    e.currSize[e.U] := n;
    assert e.partId[..] == pid1;
    assert e.currSize[..] == sizes0[e.U := n];
    FilledValid(e, w0, pid0, cs0, sizes0, added);
  }

  /** ocf_lru_populate with the corrected scan NextPhysInvalid: walking
      the table in physical order, numFree invalid lines go to the clean
      freelist lists and the freelist size becomes numFree.  ok is false
      where its ENV_BUG_ONs fire: the scan runs out of invalid lines before
      numFree of them are placed, or an invalid line is left once they are.
      (PopulateAsWritten gives the outcome with the scan as written.)  The
      freelist must be empty and the invalid lines on no list, as after
      ocf_lru_init. */
  method Populate(e: Engine, valid: seq<bool>, p2l: seq<int>, numFree: nat) returns (ok: bool)
    requires e.Valid() && |valid| == e.N && Mapping(valid, p2l) && Injective(p2l)
    requires forall sh, clean :: 0 <= sh < e.L ==> e.contents[e.ListId(e.U, sh, clean)] == []
    requires forall c :: 0 <= c < e.N && !valid[c] ==> e.where[c] == -1
    modifies e.meta, e.lists, e.partId, e.currSize, e`contents, e`where
    ensures ok <==> numFree == |Invalids(valid, p2l, 0, e.N)|
    ensures ok ==> e.Valid() && e.currSize[e.U] == numFree
    ensures ok ==> forall j :: 0 <= j < e.N && !valid[p2l[j]] ==>
                     e.where[p2l[j]] == FreeList(e, p2l[j]) && e.partId[p2l[j]] == e.U
    ensures ok ==> forall c :: 0 <= c < e.N && valid[c] ==>
                     e.where[c] == old(e.where[c]) && e.partId[c] == old(e.partId[c])
    ensures ok ==> forall k :: 0 <= k < e.PartBase(e.U) ==> e.contents[k] == old(e.contents[k])
  {
    ghost var w0, pid0, cs0, sizes0 := e.where, e.partId[..], e.contents, e.currSize[..];
    e.PartEmpty(e.contents, e.U);
    assert sizes0[e.U := 0] == sizes0;
    var phys;
    ghost var added;
    ok, phys, added := PlaceLines(e, valid, p2l, numFree, w0, pid0, cs0, sizes0);
    if ok {
      var last := NextPhysInvalid(valid, p2l, phys);
      ScanEnd(valid, p2l, phys, last);
      ok := last == e.N;
      if ok {
        SetFreeSize(e, numFree, w0, pid0, cs0, sizes0, added);
        forall j | 0 <= j < e.N && !valid[p2l[j]]
          ensures p2l[j] in added
        {
          InvalidsHas(valid, p2l, 0, e.N, j);
        }
      }
    }
  }
}
