/** Which slices of a node are current: the newest generation of each pool, if complete. */
module Pools {
  import opened Types

  datatype PoolKey = PoolKey(driver: string, pool: string)

  function PoolOf(s: Slice): PoolKey {
    PoolKey(s.driver, s.pool)
  }

  /** The highest generation of pool k. */
  function Newest(ss: seq<Slice>, k: PoolKey): Option<int>
  {
    if ss == [] then None
    else
      var before, s := Newest(ss[..|ss| - 1], k), ss[|ss| - 1];
      if PoolOf(s) == k && (before.None? || s.generation > before.value) then Some(s.generation) else before
  }

  /** The slices of pool k with generation g, in order. */
  function OfGeneration(ss: seq<Slice>, k: PoolKey, g: int): seq<Slice>
  {
    if ss == [] then []
    else
      var s := ss[|ss| - 1];
      OfGeneration(ss[..|ss| - 1], k, g) + if PoolOf(s) == k && s.generation == g then [s] else []
  }

  function Current(ss: seq<Slice>, k: PoolKey): seq<Slice>
  {
    var g := Newest(ss, k);
    if g.None? then [] else OfGeneration(ss, k, g.value)
  }

  /** The slice count a pool is held to: the first that is not zero. */
  function Declared(ss: seq<Slice>): int
  {
    if ss == [] then 0
    else
      var before := Declared(ss[..|ss| - 1]);
      if before == 0 then ss[|ss| - 1].sliceCount else before
  }

  /** Pools in the order of their first slice. */
  function PoolOrder(ss: seq<Slice>): seq<PoolKey>
  {
    if ss == [] then []
    else
      var before, k := PoolOrder(ss[..|ss| - 1]), PoolOf(ss[|ss| - 1]);
      if k in before then before else before + [k]
  }

  /** Every slice, when read, declares the count of its pool's newest generation so far. */
  predicate CountsAgree(ss: seq<Slice>)
  {
    ss == [] ||
    var s := ss[|ss| - 1];
    && CountsAgree(ss[..|ss| - 1])
    && (Newest(ss, PoolOf(s)) == Some(s.generation) ==> s.sliceCount == Declared(Current(ss, PoolOf(s))))
  }

  predicate Complete(current: seq<Slice>) {
    Declared(current) > 0 && |current| == Declared(current)
  }

  function Gather(ss: seq<Slice>, pools: seq<PoolKey>): seq<Slice>
  {
    if pools == [] then []
    else Gather(ss, pools[..|pools| - 1]) + Current(ss, pools[|pools| - 1])
  }

  /** The current slices, or None when some pool is inconsistent or incomplete. */
  function CurrentSlices(ss: seq<Slice>): Option<seq<Slice>>
  {
    if CountsAgree(ss) && forall k | k in PoolOrder(ss) :: Complete(Current(ss, k))
    then Some(Gather(ss, PoolOrder(ss)))
    else None
  }

  datatype PoolRecord = PoolRecord(generation: int, expectedCount: int, slices: seq<Slice>)

  /** The one-pass scan, with one record per pool that is reset when a newer generation appears. */
  method CompleteCurrentPoolSlices(ss: seq<Slice>) returns (r: Option<seq<Slice>>)
    ensures r == CurrentSlices(ss)
  {
    hide CountsAgree, Scanned, Newest, Current, CurrentSlices;
    var order: seq<PoolKey>, pools: map<PoolKey, PoolRecord> := [], map[];
    ScanStart();
    for i := 0 to |ss|
      invariant CountsAgree(ss[..i])
      invariant Scanned(order, pools, ss[..i])
    {
      var k := PoolOf(ss[i]);
      assert ss[..i + 1] == ss[..i] + [ss[i]];
      ScannedPool(order, pools, ss[..i], k);
      var pool := ReadSlice(if k in pools then Some(pools[k]) else None, ss[i], ss[..i]);
      if pool.None? {
        DisagreementStays(ss, i + 1);
        return None;
      }
      ScannedSnoc(order, pools, ss[..i], ss[i], pool.value);
      order := if k in pools then order else order + [k];
      pools := pools[k := pool.value];
    }
    assert ss[..|ss|] == ss;
    r := Collect(ss, order, pools);
  }

  ghost predicate Scanned(order: seq<PoolKey>, pools: map<PoolKey, PoolRecord>, ss: seq<Slice>) {
    && order == PoolOrder(ss)
    && (forall k :: k in pools <==> k in order)
    && (forall k :: k in pools <==> Newest(ss, k).Some?)
    && (forall k | k in pools :: Records(pools[k], ss, k))
  }

  lemma ScanStart()
    ensures CountsAgree([]) && Scanned([], map[], [])
  {
  }

  lemma ScannedPool(order: seq<PoolKey>, pools: map<PoolKey, PoolRecord>, ss: seq<Slice>, k: PoolKey)
    requires Scanned(order, pools, ss)
    ensures k in pools <==> Newest(ss, k).Some?
    ensures k in pools <==> k in order
    ensures k in pools ==> Records(pools[k], ss, k)
  {
  }

  lemma ScannedSnoc(order: seq<PoolKey>, pools: map<PoolKey, PoolRecord>, ss: seq<Slice>, s: Slice, pool: PoolRecord)
    requires Scanned(order, pools, ss) && Records(pool, ss + [s], PoolOf(s))
    ensures Scanned(if PoolOf(s) in pools then order else order + [PoolOf(s)], pools[PoolOf(s) := pool], ss + [s])
  {
    hide Newest, Current;
    assert (ss + [s])[..|ss|] == ss;
    forall k | k != PoolOf(s)
      ensures Newest(ss + [s], k) == Newest(ss, k) && Current(ss + [s], k) == Current(ss, k)
    {
      OtherPoolUnchanged(ss, s, k);
    }
  }

  ghost predicate Records(pool: PoolRecord, ss: seq<Slice>, k: PoolKey) {
    && Newest(ss, k) == Some(pool.generation)
    && pool.slices == Current(ss, k)
    && pool.expectedCount == Declared(pool.slices)
  }

  /** Updates the record of the slice's pool; None when the declared counts disagree. */
  method ReadSlice(record: Option<PoolRecord>, s: Slice, ghost before: seq<Slice>) returns (r: Option<PoolRecord>)
    requires CountsAgree(before)
    requires record.Some? <==> Newest(before, PoolOf(s)).Some?
    requires record.Some? ==> Records(record.value, before, PoolOf(s))
    ensures r.None? ==> !CountsAgree(before + [s])
    ensures r.Some? ==> CountsAgree(before + [s]) && Records(r.value, before + [s], PoolOf(s))
  {
    ghost var now := before + [s];
    assert now[..|before|] == before;
    var pool := if record.Some? then record.value else PoolRecord(s.generation, 0, []);
    if s.generation > pool.generation {
      pool := PoolRecord(s.generation, 0, []);
    }
    if s.generation != pool.generation {
      return Some(pool);
    }
    if record.None? || record.value.generation != pool.generation {
      NothingOfGeneration(before, PoolOf(s), s.generation);
    }
    if pool.expectedCount == 0 {
      pool := pool.(expectedCount := s.sliceCount);
    }
    DeclaredSnoc(pool.slices, s);
    if s.sliceCount != pool.expectedCount {
      return None;
    }
    return Some(pool.(slices := pool.slices + [s]));
  }

  lemma OtherPoolUnchanged(before: seq<Slice>, s: Slice, k: PoolKey)
    requires PoolOf(s) != k
    ensures Newest(before + [s], k) == Newest(before, k) && Current(before + [s], k) == Current(before, k)
  {
  }

  method Collect(ghost ss: seq<Slice>, order: seq<PoolKey>, pools: map<PoolKey, PoolRecord>)
    returns (r: Option<seq<Slice>>)
    requires CountsAgree(ss) && Scanned(order, pools, ss)
    ensures r == CurrentSlices(ss)
  {
    hide Newest, Current, CountsAgree, PoolOrder;
    var current: seq<Slice> := [];
    for i := 0 to |order|
      invariant current == Gather(ss, order[..i])
      invariant forall k | k in order[..i] :: Complete(Current(ss, k))
    {
      var pool := pools[order[i]];
      assert order[i] in order && Records(pool, ss, order[i]);
      if pool.expectedCount <= 0 || |pool.slices| != pool.expectedCount {
        return None;
      }
      current := current + pool.slices;
      assert order[..i + 1][..i] == order[..i];
    }
    assert order[..|order|] == order;
    return Some(current);
  }

  lemma DeclaredSnoc(ss: seq<Slice>, s: Slice)
    ensures Declared(ss + [s]) == if Declared(ss) == 0 then s.sliceCount else Declared(ss)
  {
  }

  lemma {:induction false} DisagreementStays(ss: seq<Slice>, i: nat)
    requires i <= |ss| && !CountsAgree(ss[..i])
    ensures !CountsAgree(ss) && CurrentSlices(ss).None?
  {
    if i < |ss| {
      assert ss[..|ss| - 1][..i] == ss[..i];
      DisagreementStays(ss[..|ss| - 1], i);
    } else {
      assert ss[..i] == ss;
    }
  }

  /** Newest is the maximum of the pool's generations. */
  lemma {:induction false} NewestIsMaximum(ss: seq<Slice>, k: PoolKey)
    ensures Newest(ss, k).None? <==> forall s | s in ss :: PoolOf(s) != k
    ensures Newest(ss, k).Some? ==>
              && (exists s | s in ss :: PoolOf(s) == k && s.generation == Newest(ss, k).value)
              && (forall s | s in ss && PoolOf(s) == k :: s.generation <= Newest(ss, k).value)
  {
    if ss != [] {
      NewestIsMaximum(ss[..|ss| - 1], k);
      assert ss == ss[..|ss| - 1] + [ss[|ss| - 1]];
    }
  }

  lemma NothingOfGeneration(ss: seq<Slice>, k: PoolKey, g: int)
    requires Newest(ss, k).None? || Newest(ss, k).value < g
    ensures OfGeneration(ss, k, g) == []
  {
  }

  lemma {:induction false} NoMatchNoSlices(ss: seq<Slice>, k: PoolKey, g: int)
    requires forall s | s in ss :: !(PoolOf(s) == k && s.generation == g)
    ensures OfGeneration(ss, k, g) == []
  {
    if ss != [] {
      assert ss[|ss| - 1] in ss;
      NoMatchNoSlices(ss[..|ss| - 1], k, g);
    }
  }

  lemma {:induction false} OfGenerationCounts(ss: seq<Slice>, k: PoolKey, g: int, s: Slice)
    ensures multiset(OfGeneration(ss, k, g))[s] ==
            if PoolOf(s) == k && s.generation == g then multiset(ss)[s] else 0
  {
    if ss != [] {
      var init, last := ss[..|ss| - 1], ss[|ss| - 1];
      OfGenerationCounts(init, k, g, s);
      assert ss == init + [last];
      var kept := if PoolOf(last) == k && last.generation == g then [last] else [];
      assert multiset(ss) == multiset(init) + multiset{last};
      assert OfGeneration(ss, k, g) == OfGeneration(init, k, g) + kept;
      assert multiset(OfGeneration(ss, k, g)) == multiset(OfGeneration(init, k, g)) + multiset(kept);
      hide OfGeneration;
    }
  }

  lemma {:induction false} PoolOrderCovers(ss: seq<Slice>, k: PoolKey)
    ensures k in PoolOrder(ss) <==> exists s | s in ss :: PoolOf(s) == k
  {
    if ss != [] {
      PoolOrderCovers(ss[..|ss| - 1], k);
      assert ss == ss[..|ss| - 1] + [ss[|ss| - 1]];
    }
  }

  /** Pool k is first seen at position i. */
  predicate FirstSeen(ss: seq<Slice>, k: PoolKey, i: nat) {
    i < |ss| && PoolOf(ss[i]) == k && forall j | 0 <= j < i :: PoolOf(ss[j]) != k
  }

  /** The pools are listed once each, in the order in which they are first seen. */
  lemma {:induction false} PoolOrderAppears(ss: seq<Slice>, a: nat, b: nat) returns (i: nat, j: nat)
    requires a <= b < |PoolOrder(ss)|
    ensures FirstSeen(ss, PoolOrder(ss)[a], i) && FirstSeen(ss, PoolOrder(ss)[b], j)
    ensures i <= j && (a < b ==> i < j)
  {
    var n := |ss| - 1;
    var before := PoolOrder(ss[..n]);
    if b < |before| {
      i, j := PoolOrderAppears(ss[..n], a, b);
    } else {
      PoolOrderCovers(ss[..n], PoolOf(ss[n]));
      j := n;
      if a < b {
        var last;
        i, last := PoolOrderAppears(ss[..n], a, a);
      } else {
        i := n;
      }
    }
  }

  lemma InOfGeneration(ss: seq<Slice>, k: PoolKey, g: int, s: Slice)
    ensures s in OfGeneration(ss, k, g) <==> s in ss && PoolOf(s) == k && s.generation == g
  {
  }

  lemma {:induction false} InGather(ss: seq<Slice>, pools: seq<PoolKey>, s: Slice)
    ensures s in Gather(ss, pools) <==> exists k | k in pools :: s in Current(ss, k)
  {
    if pools != [] {
      InGather(ss, pools[..|pools| - 1], s);
      assert pools == pools[..|pools| - 1] + [pools[|pools| - 1]];
    }
  }

  lemma CurrentCounts(ss: seq<Slice>, k: PoolKey, s: Slice)
    ensures multiset(Current(ss, k))[s] ==
            if PoolOf(s) == k && Newest(ss, k) == Some(s.generation) then multiset(ss)[s] else 0
  {
    hide Newest;
    if Newest(ss, k).Some? { OfGenerationCounts(ss, k, Newest(ss, k).value, s); }
  }

  lemma {:induction false} GatherCounts(ss: seq<Slice>, pools: seq<PoolKey>, s: Slice)
    requires forall a, b | 0 <= a < b < |pools| :: pools[a] != pools[b]
    ensures multiset(Gather(ss, pools))[s] ==
            if PoolOf(s) in pools && Newest(ss, PoolOf(s)) == Some(s.generation) then multiset(ss)[s] else 0
  {
    hide Newest, Current;
    if pools != [] {
      var init, k := pools[..|pools| - 1], pools[|pools| - 1];
      GatherCounts(ss, init, s);
      CurrentCounts(ss, k, s);
      assert pools == init + [k];
    }
  }

  /** Slices of different pools stand in the order of their pools. */
  lemma {:induction false} GatherGrouped(ss: seq<Slice>, pools: seq<PoolKey>, x: nat, y: nat) returns (a: nat, b: nat)
    requires x <= y < |Gather(ss, pools)|
    ensures a <= b < |pools| && PoolOf(Gather(ss, pools)[x]) == pools[a] && PoolOf(Gather(ss, pools)[y]) == pools[b]
  {
    var n := |pools| - 1;
    var before, here := Gather(ss, pools[..n]), Current(ss, pools[n]);
    forall i | 0 <= i < |here| ensures PoolOf(here[i]) == pools[n] {
      assert here[i] in here;
      InOfGeneration(ss, pools[n], Newest(ss, pools[n]).value, here[i]);
    }
    if y < |before| {
      a, b := GatherGrouped(ss, pools[..n], x, y);
    } else {
      b := n;
      if x < |before| {
        var last;
        a, last := GatherGrouped(ss, pools[..n], x, x);
      } else {
        a := n;
      }
    }
  }

  /** The current slices are grouped by pool, in the order in which the pools are first seen. */
  lemma CurrentSlicesGrouped(ss: seq<Slice>, x: nat, y: nat) returns (i: nat, j: nat)
    requires CurrentSlices(ss).Some? && x <= y < |CurrentSlices(ss).value|
    ensures FirstSeen(ss, PoolOf(CurrentSlices(ss).value[x]), i)
    ensures FirstSeen(ss, PoolOf(CurrentSlices(ss).value[y]), j)
    ensures i <= j
  {
    var a, b := GatherGrouped(ss, PoolOrder(ss), x, y);
    i, j := PoolOrderAppears(ss, a, b);
  }

  ghost predicate IsNewest(ss: seq<Slice>, s: Slice) {
    s in ss && forall t | t in ss && PoolOf(t) == PoolOf(s) :: t.generation <= s.generation
  }

  lemma NewestMeans(ss: seq<Slice>, s: Slice)
    requires s in ss
    ensures Newest(ss, PoolOf(s)) == Some(s.generation) <==> IsNewest(ss, s)
  {
    NewestIsMaximum(ss, PoolOf(s));
  }

  /**
   * The scan returns the slices of the newest generation of their pool and no others, each as often
   * as it was listed.
   */
  lemma CurrentSlicesExact(ss: seq<Slice>, s: Slice)
    requires CurrentSlices(ss).Some?
    ensures multiset(CurrentSlices(ss).value)[s] == if IsNewest(ss, s) then multiset(ss)[s] else 0
    ensures s in CurrentSlices(ss).value <==> IsNewest(ss, s)
  {
    var order := PoolOrder(ss);
    forall a, b | 0 <= a < b < |order| ensures order[a] != order[b] {
      var i, j := PoolOrderAppears(ss, a, b);
    }
    GatherCounts(ss, order, s);
    PoolOrderCovers(ss, PoolOf(s));
    if s in ss { NewestMeans(ss, s); }
  }

  // ---------- which inputs succeed in whatever order the slices are listed ----------

  predicate PositiveCounts(ss: seq<Slice>) {
    forall s | s in ss :: s.sliceCount > 0
  }

  ghost predicate GenerationsAgree(ss: seq<Slice>) {
    forall a, b | a in ss && b in ss && PoolOf(a) == PoolOf(b) && a.generation == b.generation ::
      a.sliceCount == b.sliceCount
  }

  /** The newest generation of every pool has as many slices as each of them declares. */
  ghost predicate NewestComplete(ss: seq<Slice>) {
    forall s | IsNewest(ss, s) :: |OfGeneration(ss, PoolOf(s), s.generation)| == s.sliceCount
  }

  lemma {:induction false} DeclaredOfUniform(ss: seq<Slice>, count: int)
    requires ss != [] && forall s | s in ss :: s.sliceCount == count
    ensures Declared(ss) == count
  {
    var init := ss[..|ss| - 1];
    assert ss[|ss| - 1] in ss;
    if init != [] { DeclaredOfUniform(init, count); }
  }

  lemma {:induction false} AgreementSuffices(ss: seq<Slice>)
    requires GenerationsAgree(ss)
    ensures CountsAgree(ss)
  {
    if ss != [] {
      var init, s := ss[..|ss| - 1], ss[|ss| - 1];
      assert forall x | x in init :: x in ss;
      AgreementSuffices(init);
      var k := PoolOf(s);
      if Newest(ss, k) == Some(s.generation) {
        DeclaredByMember(ss, s);
      }
    }
  }

  lemma DeclaredByMember(ss: seq<Slice>, s: Slice)
    requires GenerationsAgree(ss) && s in ss && Newest(ss, PoolOf(s)) == Some(s.generation)
    ensures Declared(Current(ss, PoolOf(s))) == s.sliceCount
  {
    var current := Current(ss, PoolOf(s));
    forall x | x in current
      ensures x.sliceCount == s.sliceCount
    {
      InOfGeneration(ss, PoolOf(s), s.generation, x);
    }
    InOfGeneration(ss, PoolOf(s), s.generation, s);
    DeclaredOfUniform(current, s.sliceCount);
  }

  lemma AgreeingAndCompleteSucceeds(ss: seq<Slice>)
    requires PositiveCounts(ss) && GenerationsAgree(ss) && NewestComplete(ss)
    ensures CurrentSlices(ss).Some?
  {
    AgreementSuffices(ss);
    forall k | k in PoolOrder(ss)
      ensures Complete(Current(ss, k))
    {
      PoolOrderCovers(ss, k);
      NewestIsMaximum(ss, k);
      var s :| s in ss && PoolOf(s) == k && s.generation == Newest(ss, k).value;
      assert IsNewest(ss, s);
      DeclaredByMember(ss, s);
    }
  }

  lemma SamePools(ss: seq<Slice>, ts: seq<Slice>)
    requires multiset(ss) == multiset(ts)
    ensures forall s :: s in ss <==> s in ts
    ensures NewestComplete(ss) <==> NewestComplete(ts)
  {
    assert forall s :: s in ss <==> s in multiset(ss);
    assert forall s :: s in ts <==> s in multiset(ts);
    forall s: Slice
      ensures |OfGeneration(ss, PoolOf(s), s.generation)| == |OfGeneration(ts, PoolOf(s), s.generation)|
    {
      var a, b := OfGeneration(ss, PoolOf(s), s.generation), OfGeneration(ts, PoolOf(s), s.generation);
      forall x
        ensures multiset(a)[x] == multiset(b)[x]
      {
        OfGenerationCounts(ss, PoolOf(s), s.generation, x);
        OfGenerationCounts(ts, PoolOf(s), s.generation, x);
      }
      assert multiset(a) == multiset(b);
      assert |a| == |multiset(a)| && |b| == |multiset(b)|;
    }
  }

  lemma CurrentSnoc(ss: seq<Slice>, s: Slice, k: PoolKey)
    ensures Current(ss + [s], k) ==
            if PoolOf(s) != k || (Newest(ss, k).Some? && s.generation < Newest(ss, k).value) then Current(ss, k)
            else if Newest(ss, k) == Some(s.generation) then Current(ss, k) + [s]
            else [s]
  {
    assert (ss + [s])[..|ss|] == ss;
    if PoolOf(s) == k && (Newest(ss, k).None? || Newest(ss, k).value < s.generation) {
      NothingOfGeneration(ss, k, s.generation);
    }
  }

  lemma CountsAgreeSnoc(ss: seq<Slice>, s: Slice)
    requires CountsAgree(ss + [s])
    ensures CountsAgree(ss)
    ensures Newest(ss, PoolOf(s)) == Some(s.generation) ==> s.sliceCount == Declared(Current(ss + [s], PoolOf(s)))
  {
  }

  /** When the scan succeeds, the slices kept for a pool all declare the same count. */
  lemma {:induction false} KeptSlicesAgree(ss: seq<Slice>, k: PoolKey)
    requires CountsAgree(ss) && PositiveCounts(ss)
    ensures forall x | x in Current(ss, k) :: x.sliceCount == Declared(Current(ss, k))
    ensures Current(ss, k) != [] ==> Declared(Current(ss, k)) > 0
  {
    if ss != [] {
      hide Newest, Current, CountsAgree;
      var init, s := ss[..|ss| - 1], ss[|ss| - 1];
      assert ss == init + [s];
      assert s in ss && forall x | x in init :: x in ss;
      CountsAgreeSnoc(init, s);
      KeptSlicesAgree(init, k);
      CurrentSnoc(init, s, k);
      DeclaredSnoc(Current(init, k), s);
      assert Declared([s]) == s.sliceCount;
    }
  }

  /** Two slices of one generation that disagree, read first, make the scan fail. */
  lemma DisagreementFound(a: Slice, b: Slice, rest: seq<Slice>)
    requires PoolOf(a) == PoolOf(b) && a.generation == b.generation && a.sliceCount != b.sliceCount
    requires a.sliceCount > 0
    ensures !CountsAgree([a, b] + rest)
  {
    var ss := [a, b] + rest;
    assert [a, b][..1] == [a] && [a][..0] == [];
    assert Newest([a], PoolOf(a)) == Some(a.generation);
    assert OfGeneration([a], PoolOf(a), a.generation) == [a];
    assert Current([a, b], PoolOf(a)) == [a, b];
    assert Declared([a]) == a.sliceCount;
    assert !CountsAgree([a, b]);
    assert ss[..2] == [a, b];
    DisagreementStays(ss, 2);
  }

  lemma BringForward(ss: seq<Slice>, i: nat, j: nat) returns (rest: seq<Slice>)
    requires i < j < |ss|
    ensures multiset([ss[i], ss[j]] + rest) == multiset(ss)
  {
    rest := ss[..i] + ss[i + 1..j] + ss[j + 1..];
    assert ss == ss[..i] + [ss[i]] + ss[i + 1..j] + [ss[j]] + ss[j + 1..];
  }

  /**
   * With positive counts, the scan succeeds in every listing order exactly when all slices of a
   * generation declare the same count and every newest generation is complete.
   */
  lemma SucceedsInEveryOrder(ss: seq<Slice>)
    requires PositiveCounts(ss)
    ensures (forall ts | multiset(ts) == multiset(ss) :: CurrentSlices(ts).Some?) <==>
            GenerationsAgree(ss) && NewestComplete(ss)
  {
    if GenerationsAgree(ss) && NewestComplete(ss) {
      forall ts | multiset(ts) == multiset(ss)
        ensures CurrentSlices(ts).Some?
      {
        SamePools(ss, ts);
        AgreeingAndCompleteSucceeds(ts);
      }
    }
    if forall ts | multiset(ts) == multiset(ss) :: CurrentSlices(ts).Some? {
      forall a, b | a in ss && b in ss && PoolOf(a) == PoolOf(b) && a.generation == b.generation
        ensures a.sliceCount == b.sliceCount
      {
        if a.sliceCount != b.sliceCount {
          var i :| 0 <= i < |ss| && ss[i] == a;
          var j :| 0 <= j < |ss| && ss[j] == b;
          var first, second := if i < j then i else j, if i < j then j else i;
          var rest := BringForward(ss, first, second);
          var ts := [ss[first], ss[second]] + rest;
          assert CurrentSlices(ts).Some?;
          DisagreementFound(ss[first], ss[second], rest);
        }
      }
      SuccessMeansComplete(ss);
    }
  }

  lemma SuccessMeansComplete(ss: seq<Slice>)
    requires PositiveCounts(ss) && CurrentSlices(ss).Some?
    ensures NewestComplete(ss)
  {
    forall s | IsNewest(ss, s)
      ensures |OfGeneration(ss, PoolOf(s), s.generation)| == s.sliceCount
    {
      NewestIsCurrent(ss, s);
      PoolOrderCovers(ss, PoolOf(s));
      KeptSlicesAgree(ss, PoolOf(s));
    }
  }

  lemma NewestIsCurrent(ss: seq<Slice>, s: Slice)
    requires IsNewest(ss, s)
    ensures Current(ss, PoolOf(s)) == OfGeneration(ss, PoolOf(s), s.generation)
    ensures s in Current(ss, PoolOf(s))
  {
    NewestIsMaximum(ss, PoolOf(s));
    InOfGeneration(ss, PoolOf(s), s.generation, s);
  }
}
