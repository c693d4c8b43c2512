// The bulk scan of src/ocf_lru.c (ocf_metadata_actor with its predicate
// _is_cache_line_acting): every line of the cache, or every line on the
// lists of one user partition, whose core and core line match is handed
// to the caller's action, except lines in use, which make the scan ask
// for a retry.
module LruActor {
  import opened LruList
  import opened Lru

  /** A core id; NoCore is OCF_CORE_ID_INVALID. */
  datatype CoreId = Core(id: nat) | NoCore

  /** ocf_metadata_get_core_info of one line: its core and core line. */
  datatype CoreInfo = CoreInfo(core: CoreId, coreLine: int)

  /** The partition argument; AnyPart is PARTITION_UNSPECIFIED. */
  datatype PartSel = AnyPart | OnePart(part: nat)

  /** 0, or -OCF_ERR_AGAIN when some matching line was in use. */
  datatype ActorResult = ActorOk | ActorAgain

  /** _is_cache_line_acting: a line matches when it belongs to some core
      and, when a core is given, to that core with its core line in
      [startLine, endLine]. */
  function IsCacheLineActing(info: CoreInfo, core: CoreId, startLine: int, endLine: int): (r: bool)
    ensures r <==> info.core != NoCore &&
                   (core != NoCore ==> info.core == core && startLine <= info.coreLine <= endLine)
  {
    if core != NoCore then
      if core != info.core then false
      else if info.coreLine < startLine || info.coreLine > endLine then false
      else true
    else if info.core == NoCore then false
    else true
  }

  // ---------------------------------------------------------------------
  // What a scan does, given the order it visits lines in
  // ---------------------------------------------------------------------

  /** The query of one scan: the core info and in-use flag of every line,
      the core and the core line range. */
  datatype Query = Query(info: seq<CoreInfo>, used: seq<bool>, core: CoreId, startLine: int, endLine: int)
  {
    /** Line c is a line of the table that matches the query. */
    predicate Matches(c: int)
    {
      0 <= c < |info| && IsCacheLineActing(info[c], core, startLine, endLine)
    }

    /** Line c is in use (ocf_cache_line_is_used). */
    predicate InUse(c: int)
    {
      0 <= c < |used| && used[c]
    }
  }

  /** The lines of `order` the action is applied to, in the order visited:
      the matching lines that are not in use. */
  ghost function Acted(q: Query, order: seq<int>): (r: seq<int>)
    decreases |order|
  {
    if order == [] then []
    else
      var last := order[|order| - 1];
      Acted(q, order[..|order| - 1]) + (if q.Matches(last) && !q.InUse(last) then [last] else [])
  }

  /** The lines acted on are the matching lines of `order` not in use. */
  lemma {:induction false} ActedMembers(q: Query, order: seq<int>)
    ensures forall x :: x in Acted(q, order) <==> x in order && q.Matches(x) && !q.InUse(x)
    decreases |order|
  {
    if order != [] {
      var front := order[..|order| - 1];
      ActedMembers(q, front);
      assert order == front + [order[|order| - 1]];
    }
  }

  /** Some matching line of `order` is in use. */
  ghost predicate Blocked(q: Query, order: seq<int>)
  {
    exists x :: x in order && q.Matches(x) && q.InUse(x)
  }

  /** Visiting one more line. */
  lemma ActedSnoc(q: Query, order: seq<int>, c: nat)
    ensures Acted(q, order + [c]) ==
            Acted(q, order) + (if q.Matches(c) && !q.InUse(c) then [c] else [])
    ensures Blocked(q, order + [c]) <==> Blocked(q, order) || (q.Matches(c) && q.InUse(c))
  {
    assert (order + [c])[..|order|] == order;
  }

  /** Visiting one more line after lines already acted on. */
  lemma ActedNext(q: Query, pre: seq<int>, order: seq<int>, c: nat)
    ensures pre + Acted(q, order + [c]) ==
            (pre + Acted(q, order)) + (if q.Matches(c) && !q.InUse(c) then [c] else [])
    ensures Blocked(q, order + [c]) <==> Blocked(q, order) || (q.Matches(c) && q.InUse(c))
  {
    ActedSnoc(q, order, c);
  }

  /** Visiting one order after another. */
  lemma {:induction false} ActedAppend(q: Query, a: seq<int>, b: seq<int>)
    ensures Acted(q, a + b) == Acted(q, a) + Acted(q, b)
    decreases |b|
  {
    if b == [] {
      assert a + b == a;
    } else {
      var b0, last := b[..|b| - 1], b[|b| - 1];
      assert b == b0 + [last];
      assert a + b == (a + b0) + [last];
      ActedAppend(q, a, b0);
      calc {
        Acted(q, a + b);
        Acted(q, a + b0) + (if q.Matches(last) && !q.InUse(last) then [last] else []);
        Acted(q, a) + Acted(q, b0) + (if q.Matches(last) && !q.InUse(last) then [last] else []);
        Acted(q, a) + Acted(q, b);
      }
    }
  }

  lemma BlockedAppend(q: Query, a: seq<int>, b: seq<int>)
    ensures Blocked(q, a + b) <==> Blocked(q, a) || Blocked(q, b)
  {
  }

  // ---------------------------------------------------------------------
  // Visiting orders
  // ---------------------------------------------------------------------

  /** 0, 1, ..., n - 1: the order of the scan over the whole cache. */
  function Range(n: nat): (r: seq<int>)
    ensures |r| == n && forall i :: 0 <= i < n ==> r[i] == i
  {
    seq(n, i => i)
  }

  /** A list from tail to head. */
  function Rev(s: seq<int>): (r: seq<int>)
    ensures |r| == |s|
  {
    if s == [] then [] else Rev(s[1..]) + [s[0]]
  }

  /** Rev puts the i-th node from the tail at position i. */
  lemma {:induction false} RevIndex(s: seq<int>)
    ensures forall i :: 0 <= i < |s| ==> Rev(s)[i] == s[|s| - 1 - i]
  {
    if s != [] {
      RevIndex(s[1..]);
    }
  }

  /** Walking one more node toward the head. */
  lemma RevNext(s: seq<int>, m: nat)
    requires m < |s|
    ensures Rev(s)[..m + 1] == Rev(s)[..m] + [s[|s| - 1 - m]]
  {
    var r := Rev(s);
    RevIndex(s);
    assert r[m] == s[|s| - 1 - m];
    PrefixNext(r, m);
  }

  lemma PrefixNext(r: seq<int>, m: nat)
    requires m < |r|
    ensures r[..m + 1] == r[..m] + [r[m]]
  {
  }

  /** The order of the scan over partition p: for each shard, the dirty
      list and then the clean list, each from tail to head. */
  ghost function PartOrder(e: Engine, cs: seq<seq<int>>, p: nat, n: nat): seq<int>
    requires |cs| == e.NumLists() && p <= e.U && n <= e.L
  {
    if n == 0 then [] else PartOrder(e, cs, p, n - 1) + ShardOrder(e, cs, p, n - 1)
  }

  /** The order of the scan over shard sh of partition p. */
  ghost function ShardOrder(e: Engine, cs: seq<seq<int>>, p: nat, sh: nat): seq<int>
    requires |cs| == e.NumLists() && p <= e.U && sh < e.L
  {
    Rev(cs[e.ListId(p, sh, false)]) + Rev(cs[e.ListId(p, sh, true)])
  }

  /** The lines a list visits from tail to head are the lines the table
      records on it. */
  lemma ListLines(e: Engine, k: nat)
    requires e.Linked() && k < e.NumLists()
    ensures forall c :: c in Rev(e.contents[k]) <==> 0 <= c < e.N && e.where[c] == k
  {
    var s := e.contents[k];
    assert LinkedAs(s, e.lists[k], e.meta[..], e.where, k);
    TableLines(e.contents, e.lists[..], e.meta[..], e.where, k);
    RevIndex(s);
    forall c | c in Rev(s)
      ensures 0 <= c < e.N && e.where[c] == k
    {
      var i :| 0 <= i < |s| && Rev(s)[i] == c;
      assert c == s[|s| - 1 - i];
    }
    forall c | 0 <= c < e.N && e.where[c] == k
      ensures c in Rev(s)
    {
      var i :| 0 <= i < |s| && s[i] == c;
      assert Rev(s)[|s| - 1 - i] == c;
    }
  }

  /** A listed line is on the dirty or the clean list of shard sh of
      partition p exactly when it is of partition p and shard sh. */
  lemma ShardLists(e: Engine, p: nat, sh: nat, c: nat)
    requires e.Valid() && p <= e.U && sh < e.L && c < e.N && e.where[c] != -1
    ensures (e.where[c] == e.ListId(p, sh, false) || e.where[c] == e.ListId(p, sh, true)) <==>
            e.partId[c] == p && c % e.L == sh
  {
    if e.where[c] == e.ListId(p, sh, false) {
      e.ShardOfList(c, p, sh, false);
    } else if e.where[c] == e.ListId(p, sh, true) {
      e.ShardOfList(c, p, sh, true);
    }
  }

  /** The lines the partition scan visits are exactly the lines of the
      partition's lists. */
  lemma {:induction false} PartOrderLines(e: Engine, p: nat, n: nat)
    requires e.Valid() && p <= e.U && n <= e.L
    ensures forall c :: c in PartOrder(e, e.contents, p, n) <==>
              0 <= c < e.N && e.where[c] != -1 && e.partId[c] == p && c % e.L < n
  {
    if n > 0 {
      PartOrderLines(e, p, n - 1);
      var kd, kc := e.ListId(p, n - 1, false), e.ListId(p, n - 1, true);
      ListLines(e, kd);
      ListLines(e, kc);
      forall c | 0 <= c < e.N && e.where[c] != -1
        ensures (e.where[c] == kd || e.where[c] == kc) <==> e.partId[c] == p && c % e.L == n - 1
      {
        ShardLists(e, p, n - 1, c);
      }
    }
  }

  /** The partition scan acts on exactly the lines the scan of the whole
      table acts on that are listed in partition p, and it asks for a retry
      only when the whole scan would. */
  lemma PartScanLines(e: Engine, p: nat, q: Query)
    requires e.Valid() && p < e.U && |q.info| == e.N == |q.used|
    ensures forall x :: x in Acted(q, PartOrder(e, e.contents, p, e.L)) <==>
              x in Acted(q, Range(e.N)) && 0 <= x < e.N && e.where[x] != -1 && e.partId[x] == p
    ensures Blocked(q, PartOrder(e, e.contents, p, e.L)) ==> Blocked(q, Range(e.N))
  {
    var order := PartOrder(e, e.contents, p, e.L);
    PartOrderLines(e, p, e.L);
    ActedMembers(q, order);
    ActedMembers(q, Range(e.N));
    forall x | x in order
      ensures x in Range(e.N)
    {
      assert Range(e.N)[x] == x;
    }
  }

  // ---------------------------------------------------------------------
  // ocf_metadata_actor
  // ---------------------------------------------------------------------

  /** The walk of one list from its tail along the prev links: matching
      lines not in use are acted on, a matching line in use sets the
      result to AGAIN. */
  method ActOnList(e: Engine, k: nat, q: Query, acted0: seq<int>, ret0: ActorResult)
      returns (acted: seq<int>, ret: ActorResult)
    requires e.Linked() && k < e.NumLists() && |q.info| == e.N == |q.used|
    ensures acted == acted0 + Acted(q, Rev(e.contents[k]))
    ensures ret == ActorAgain <==> ret0 == ActorAgain || Blocked(q, Rev(e.contents[k]))
  {
    ghost var s := e.contents[k];
    ghost var r := Rev(s);
    TailLink(e, k);
    acted, ret := acted0, ret0;
    var cline := e.lists[k].tail;
    ghost var j := |s|;
    ghost var visited: seq<int> := [];
    while cline != END
      invariant 0 <= j <= |s| && cline == (if j == 0 then END else s[j - 1])
      invariant visited == r[..|s| - j]
      invariant acted == acted0 + Acted(q, visited)
      invariant ret == ActorAgain <==> ret0 == ActorAgain || Blocked(q, visited)
      decreases j
    {
      PrevLink(e, k, j - 1);
      var node := e.meta[cline];
      ActedNext(q, acted0, visited, cline);
      RevNext(s, |s| - j);
      visited := visited + [cline];
      if !IsCacheLineActing(q.info[cline], q.core, q.startLine, q.endLine) {
        cline := node.prev;
        j := j - 1;
        continue;
      }
      if q.used[cline] {
        ret := ActorAgain;
      } else {
        acted := acted + [cline];
      }
      cline := node.prev;
      j := j - 1;
    }
    assert visited == r;
  }

  /** The tail of list k is its last line, or END when it is empty; no
      line is END and every line is in the table. */
  lemma TailLink(e: Engine, k: nat)
    requires e.Linked() && k < e.NumLists()
    ensures var s := e.contents[k];
            e.lists[k].tail == (if s == [] then END else s[|s| - 1]) &&
            forall i :: 0 <= i < |s| ==> 0 <= s[i] < e.N && s[i] != END
  {
    var s := e.contents[k];
    assert LinkedAs(s, e.lists[k], e.meta[..], e.where, k);
  }

  /** The prev link of the i-th line of list k is the line before it, or
      END for the head. */
  lemma PrevLink(e: Engine, k: nat, i: nat)
    requires e.Linked() && k < e.NumLists() && i < |e.contents[k]|
    ensures var s := e.contents[k];
            0 <= s[i] < e.N && e.meta[s[i]].prev == (if i == 0 then END else s[i - 1])
  {
    var s := e.contents[k];
    assert LinkedAs(s, e.lists[k], e.meta[..], e.where, k);
    assert e.meta[..][s[i]] == Expected(s, i, e.lists[k].numHot);
  }

  /** The scan without a partition: every line of the collision table in
      order. */
  method ActOnAll(n: nat, q: Query) returns (acted: seq<int>, ret: ActorResult)
    requires |q.info| == n == |q.used|
    ensures acted == Acted(q, Range(n))
    ensures ret == ActorAgain <==> Blocked(q, Range(n))
  {
    acted, ret := [], ActorOk;
    var cline := 0;
    while cline < n
      invariant cline <= n
      invariant acted == Acted(q, Range(cline))
      invariant ret == ActorAgain <==> Blocked(q, Range(cline))
    {
      assert Range(cline + 1) == Range(cline) + [cline];
      ActedSnoc(q, Range(cline), cline);
      if IsCacheLineActing(q.info[cline], q.core, q.startLine, q.endLine) {
        if q.used[cline] {
          ret := ActorAgain;
        } else {
          acted := acted + [cline];
        }
      }
      cline := cline + 1;
    }
  }

  /** The scan of user partition p: for each shard its dirty list, then
      its clean list. */
  method ActOnPart(e: Engine, p: nat, q: Query) returns (acted: seq<int>, ret: ActorResult)
    requires e.Linked() && p < e.U && |q.info| == e.N == |q.used|
    ensures acted == Acted(q, PartOrder(e, e.contents, p, e.L))
    ensures ret == ActorAgain <==> Blocked(q, PartOrder(e, e.contents, p, e.L))
  {
    acted, ret := [], ActorOk;
    ghost var done: seq<int> := [];
    var i := 0;
    while i < e.L
      invariant i <= e.L && done == PartOrder(e, e.contents, p, i)
      invariant acted == Acted(q, done)
      invariant ret == ActorAgain <==> Blocked(q, done)
    {
      acted, ret := ActOnShard(e, p, i, q, acted, ret, done);
      done := done + ShardOrder(e, e.contents, p, i);
      i := i + 1;
    }
  }

  /** One turn of the scan over a partition: the dirty list of shard sh,
      then its clean list. */
  method ActOnShard(e: Engine, p: nat, sh: nat, q: Query, acted0: seq<int>, ret0: ActorResult,
                    ghost done0: seq<int>)
      returns (acted: seq<int>, ret: ActorResult)
    requires e.Linked() && p < e.U && sh < e.L && |q.info| == e.N == |q.used|
    requires acted0 == Acted(q, done0) && (ret0 == ActorAgain <==> Blocked(q, done0))
    ensures acted == Acted(q, done0 + ShardOrder(e, e.contents, p, sh))
    ensures ret == ActorAgain <==> Blocked(q, done0 + ShardOrder(e, e.contents, p, sh))
  {
    ghost var dirtyRev := Rev(e.contents[e.ListId(p, sh, false)]);
    ghost var cleanRev := Rev(e.contents[e.ListId(p, sh, true)]);
    ghost var done := done0;
    acted, ret := acted0, ret0;
    var clean := 0;
    while clean <= 1
      invariant 0 <= clean <= 2
      invariant clean == 0 ==> done == done0
      invariant clean == 1 ==> done == done0 + dirtyRev
      invariant clean == 2 ==> done == done0 + dirtyRev + cleanRev
      invariant acted == Acted(q, done)
      invariant ret == ActorAgain <==> Blocked(q, done)
    {
      var k := e.ListId(p, sh, clean == 1);
      acted, ret := ActOnList(e, k, q, acted, ret);
      ActedAppend(q, done, Rev(e.contents[k]));
      BlockedAppend(q, done, Rev(e.contents[k]));
      done := done + Rev(e.contents[k]);
      clean := clean + 1;
    }
    assert done == done0 + ShardOrder(e, e.contents, p, sh);
  }

  /** ocf_metadata_actor: the core line range is the byte range in lines;
      without a partition every line of the table is scanned in order,
      with one the partition's lists are.  The freelist is not a valid
      partition here (ENV_BUG_ON). */
  method MetadataActor(e: Engine, part: PartSel, core: CoreId, startByte: nat, endByte: nat,
                       lineSize: nat, info: seq<CoreInfo>, used: seq<bool>)
      returns (acted: seq<int>, ret: ActorResult)
    requires e.Linked() && lineSize > 0 && |info| == e.N == |used|
    requires part.OnePart? ==> part.part < e.U
    ensures var q := Query(info, used, core, startByte / lineSize, endByte / lineSize);
            var order := if part.AnyPart? then Range(e.N) else PartOrder(e, e.contents, part.part, e.L);
            acted == Acted(q, order) && (ret == ActorAgain <==> Blocked(q, order))
  {
    var q := Query(info, used, core, startByte / lineSize, endByte / lineSize);
    if part.AnyPart? {
      acted, ret := ActOnAll(e.N, q);
      return;
    }
    acted, ret := ActOnPart(e, part.part, q);
  }
}
