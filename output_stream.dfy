// The chunked writer (HBaseFileOutputStream): bytes written one at a time are
// buffered into a CACHE_SIZE array; a full buffer is queued as a shard; every
// cachePollNum queued shards are dispatched to the store in queue order; close
// (and flush) store what is still queued, then the short trailing shard, and
// mark the object INTEGRITY.
//
// The source hands each dispatched shard to a worker pool and immediately
// waits for that task's result before submitting the next one, so dispatch is
// modelled as the sequential loop it behaves as.

module HBaseFileOutputStream {
  import opened HBaseFileModel
  import opened Shards
  import opened HBaseAPIWrapper

  /** Size of the worker pool for a batch of `cachePollNum` shards: never more
      than five threads, however large the batch. */
  function ThreadNum(cachePollNum: int): (r: int)
    ensures r <= 5 && r <= cachePollNum
    ensures r == 5 || r == cachePollNum
  {
    if cachePollNum >= 5 then 5 else cachePollNum
  }

  /** The row of an object being written: shards `qs` stored under 1..|qs|,
      metadata TRANSIT with the shard count equal to the last index. */
  function TransitRow(f: HBaseFile, qs: seq<seq<JByte>>): Row
  {
    Row(f.desc, Some(f.size), Some(|qs|), Some(TRANSIT), Some(f.createTime), ShardMap(qs))
  }

  /** The row of a completely stored object with content `content`: its
      intended shards, its length as size, their number as shard count, and
      status INTEGRITY. */
  function CompleteRow(f: HBaseFile, content: seq<JByte>): Row
  {
    Row(f.desc, Some(|content|), Some(|Chunks(content)|), Some(INTEGRITY), Some(f.createTime),
        ShardMap(Chunks(content)))
  }

  /** The first stored shard turns a NEW object into a TRANSIT row holding it. */
  lemma FirstShardRow(f: HBaseFile, g: HBaseFile, q: seq<JByte>)
    requires f.desc.Some? && f.shards == 0 && f.status == TRANSIT
    requires g == f.(size := g.size, shards := 1)
    ensures WithShard(WithMeta(EmptyRow, f), g, q) == TransitRow(g, [q])
  {
    ShardMapAppend([], q);
    assert [] + [q] == [q];
  }

  /** Each further stored shard extends the TRANSIT row by one index. */
  lemma NextShardRow(f: HBaseFile, g: HBaseFile, qs: seq<seq<JByte>>, q: seq<JByte>)
    requires g == f.(size := g.size, shards := |qs| + 1)
    ensures WithShard(TransitRow(f, qs), g, q) == TransitRow(g, qs + [q])
  {
    ShardMapAppend(qs, q);
  }

  /** One more dispatched shard extends the dispatched prefix of the queue. */
  lemma NextOfQueue(qs: seq<seq<JByte>>, k: int)
    requires 0 <= k < |qs|
    requires AllFull(qs)
    ensures qs[..k + 1] == qs[..k] + [qs[k]]
    ensures qs[k] != []
  {
  }

  /** Every shard of a stretch of full shards is non-empty. */
  lemma FullSliceNonEmpty(qs: seq<seq<JByte>>, from: int, to: int)
    requires AllFull(qs) && 0 <= from <= to <= |qs|
    ensures forall i | 0 <= i < to - from :: qs[from..to][i] != []
  {
    forall i | 0 <= i < to - from
      ensures qs[from..to][i] != []
    {
      assert |qs[from + i]| == CACHE_SIZE;
    }
  }

  /** The bytes written are the queued full shards followed by the pending
      bytes of the buffer, and `size` counts them. */
  ghost predicate Layout(queue: seq<seq<JByte>>, pending: seq<JByte>, size: int, written: seq<JByte>)
  {
    && AllFull(queue)
    && size == |written|
    && written == Flatten(queue) + pending
  }

  /** One more byte in the buffer. */
  lemma LayoutPush(queue: seq<seq<JByte>>, pending: seq<JByte>, size: int, written: seq<JByte>, x: JByte)
    requires Layout(queue, pending, size, written)
    ensures Layout(queue, pending + [x], size + 1, written + [x])
  {
    assert Flatten(queue) + (pending + [x]) == (Flatten(queue) + pending) + [x];
  }

  /** A full buffer moved to the queue leaves nothing pending. */
  lemma LayoutQueue(queue: seq<seq<JByte>>, full: seq<JByte>, size: int, written: seq<JByte>)
    requires Layout(queue, full, size, written) && |full| == CACHE_SIZE
    ensures Layout(queue + [full], [], size, written)
  {
    FlattenAppend(queue, full);
  }

  /** The byte count is CACHE_SIZE per queued shard plus the buffered bytes,
      so the buffer is empty exactly when the count is a multiple of
      CACHE_SIZE. */
  lemma LayoutSize(queue: seq<seq<JByte>>, pending: seq<JByte>, size: int, written: seq<JByte>)
    requires Layout(queue, pending, size, written) && |pending| < CACHE_SIZE
    ensures size == |queue| * CACHE_SIZE + |pending|
    ensures pending == [] <==> size % CACHE_SIZE == 0
  {
    FlattenFullLength(queue);
  }

  /** What the store holds for an object whose stream was opened on handle
      `base` over rows `rows0`. Every handle the stream holds keeps the
      identifier, description and creation time it was opened with. Opened on
      a new object (`newObject`), the row holds the appended shards `stored`
      under indices 1, 2, ... with TRANSIT metadata and the shard count equal
      to the last index, or, once the stream has sealed it, the complete
      object with content `finalContent`. */
  ghost predicate StoreState(newObject: bool, finalized: bool, base: HBaseFile, rows0: map<string, Row>,
                             f: HBaseFile, stored: seq<seq<JByte>>, finalContent: seq<JByte>,
                             rows: map<string, Row>, healthy: bool)
  {
    && f.identifier == base.identifier && f.desc == base.desc && f.createTime == base.createTime
    && (finalized ==> newObject)
    && (newObject ==>
         && base.IsNew() && base.desc.Some? && base.identifier !in rows0 && healthy
         && (finalized ==> f.Integrity() && rows == rows0[base.identifier := CompleteRow(base, finalContent)])
         && (!finalized ==> f.shards == |stored|)
         && (!finalized && stored == [] ==> f.IsNew() && f.size == 0 && rows == rows0)
         && (!finalized && stored != [] ==> f.IsTransit() && rows == rows0[base.identifier := TransitRow(f, stored)]))
  }

  /** Saving INTEGRITY metadata once exactly the intended shards of `content`
      are stored, with its length as size, completes the object. */
  lemma SealedState(base: HBaseFile, rows0: map<string, Row>, f: HBaseFile, stored: seq<seq<JByte>>,
                    content: seq<JByte>, rows: map<string, Row>)
    requires StoreState(true, false, base, rows0, f, stored, [], rows, true)
    requires stored == Chunks(content) && f.size == |content|
    ensures StoreState(true, true, base, rows0, f.(status := INTEGRITY), stored, content,
      rows[base.identifier := WithMeta(RowOf(rows, base.identifier), f.(status := INTEGRITY))], true)
  {
    if stored == [] {
      FlattenChunks(content);
    }
  }

  /** Appending a non-empty shard (after marking a NEW object TRANSIT and
      saving its metadata) extends the stored shards by one. */
  lemma AppendedState(base: HBaseFile, rows0: map<string, Row>, f: HBaseFile, stored: seq<seq<JByte>>,
                      shard: seq<JByte>, size: int, rows: map<string, Row>, rows1: map<string, Row>,
                      rows2: map<string, Row>)
    requires StoreState(true, false, base, rows0, f, stored, [], rows, true)
    requires shard != []
    requires f.IsNew() ==> rows1 == rows[base.identifier := WithMeta(RowOf(rows, base.identifier), f.(status := TRANSIT))]
    requires !f.IsNew() ==> rows1 == rows
    requires rows2 == rows1[base.identifier :=
      WithShard(RowOf(rows1, base.identifier), f.(status := TRANSIT, size := size, shards := f.shards + 1), shard)]
    ensures StoreState(true, false, base, rows0, f.(status := TRANSIT, size := size, shards := f.shards + 1),
      stored + [shard], [], rows2, true)
  {
    var id := base.identifier;
    var g := f.(status := TRANSIT, size := size, shards := f.shards + 1);
    var row1 := RowOf(rows1, id);
    assert rows2 == rows0[id := WithShard(row1, g, shard)] by {
      assert rows1 == rows0[id := row1];
    }
    if stored == [] {
      assert row1 == WithMeta(EmptyRow, f.(status := TRANSIT));
      FirstShardRow(f.(status := TRANSIT), g, shard);
    } else {
      assert row1 == TransitRow(f, stored);
      NextShardRow(f, g, stored, shard);
    }
  }

  /** The part of the world a shard write changes: the stream's handle, the
      table's rows and the table's call counter. */
  datatype Snapshot = Snapshot(handle: HBaseFile, rows: map<string, Row>, calls: nat)

  /** What writeCacheToHBase(shard) does, on any store, with the outcome. A
      NEW handle is first marked TRANSIT and its metadata saved (a missing
      description is a NullPointerException before any call), and a failed
      save ends the step there. Then the handle takes the running byte total
      and the next shard index, and addShard makes one call that stores the
      shard under that index, unless the shard is empty or the handle is not
      TRANSIT, when nothing is called. */
  ghost function ShardWrite(failing: set<nat>, size: int, shard: seq<JByte>, s: Snapshot): (Outcome, Snapshot)
  {
    var f, rows, calls := s.handle, s.rows, s.calls;
    var id := f.identifier;
    var m := if f.IsNew() then f.(status := TRANSIT) else f;
    if f.IsNew() && f.desc.None? then (Fail(NullPointer), Snapshot(m, rows, calls))
    else if f.IsNew() && calls in failing then (Fail(IOFault), Snapshot(m, rows, calls + 1))
    else
      var rows1 := if f.IsNew() then rows[id := WithMeta(RowOf(rows, id), m)] else rows;
      var calls1 := if f.IsNew() then calls + 1 else calls;
      var g := m.(size := size, shards := m.shards + 1);
      if !m.IsTransit() || shard == [] then (Pass, Snapshot(g, rows1, calls1))
      else if calls1 in failing then (Fail(IOFault), Snapshot(g, rows1, calls1 + 1))
      else (Pass, Snapshot(g, rows1[id := WithShard(RowOf(rows1, id), g, shard)], calls1 + 1))
  }

  /** writeCacheToHBase(shard) took handle, rows and calls from (f, rows,
      calls) to (g, rows', calls') with outcome o. */
  ghost predicate ShardStep(failing: set<nat>, size: int, shard: seq<JByte>,
                            f: HBaseFile, rows: map<string, Row>, calls: nat,
                            o: Outcome, g: HBaseFile, rows': map<string, Row>, calls': nat)
  {
    ShardWrite(failing, size, shard, Snapshot(f, rows, calls)) == (o, Snapshot(g, rows', calls'))
  }

  /** writeCacheListToHBase over the shards `qs`, in order: each is written
      as writeCacheToHBase writes it and a failure is swallowed, so the next
      shard is written from whatever state the failed one left. */
  ghost function Dispatched(failing: set<nat>, size: int, s: Snapshot, qs: seq<seq<JByte>>): Snapshot
  {
    if qs == [] then s
    else ShardWrite(failing, size, qs[|qs| - 1], Dispatched(failing, size, s, qs[..|qs| - 1])).1
  }

  /** Dispatching one more shard of the queue is one more shard write. */
  lemma DispatchedNext(failing: set<nat>, size: int, s: Snapshot, queue: seq<seq<JByte>>, from: int, to: int)
    requires 0 <= from <= to < |queue|
    ensures Dispatched(failing, size, s, queue[from..to + 1]) ==
      ShardWrite(failing, size, queue[to], Dispatched(failing, size, s, queue[from..to])).1
  {
    assert queue[from..to + 1][..to - from] == queue[from..to];
  }

  /** The shard family of the object a snapshot's handle names. */
  ghost function ShardsOf(s: Snapshot): map<int, seq<JByte>>
  {
    RowOf(s.rows, s.handle.identifier).data
  }

  /** Dispatching non-empty shards for a TRANSIT handle makes one call per
      shard and moves the shard counter past every one of them, failed or
      not. The j-th shard lands under the j-th next index when its call
      succeeds; when its call fails, that index keeps what it held before. */
  lemma {:induction false} DispatchedSkipsFailed(failing: set<nat>, size: int, s: Snapshot, qs: seq<seq<JByte>>)
    requires s.handle.IsTransit()
    requires forall i | 0 <= i < |qs| :: qs[i] != []
    ensures Dispatched(failing, size, s, qs).handle ==
      s.handle.(size := if qs == [] then s.handle.size else size, shards := s.handle.shards + |qs|)
    ensures Dispatched(failing, size, s, qs).calls == s.calls + |qs|
    ensures forall k | s.handle.shards < k <= s.handle.shards + |qs| ::
      Landed(failing, s, qs, k, ShardsOf(Dispatched(failing, size, s, qs)))
    ensures forall k | !(s.handle.shards < k <= s.handle.shards + |qs|) ::
      SameAt(ShardsOf(Dispatched(failing, size, s, qs)), ShardsOf(s), k)
  {
    if qs != [] {
      var init := qs[..|qs| - 1];
      DispatchedSkipsFailed(failing, size, s, init);
      var r0 := Dispatched(failing, size, s, init);
      var r := Dispatched(failing, size, s, qs);
      var last := s.handle.shards + |qs|;
      assert r == ShardWrite(failing, size, qs[|qs| - 1], r0).1;
      TransitShardWrite(failing, size, qs[|qs| - 1], r0);
      forall k | s.handle.shards < k <= last
        ensures Landed(failing, s, qs, k, ShardsOf(r))
      {
        if k < last {
          assert Landed(failing, s, init, k, ShardsOf(r0));
          assert init[k - s.handle.shards - 1] == qs[k - s.handle.shards - 1];
        } else {
          assert SameAt(ShardsOf(r0), ShardsOf(s), k);
        }
      }
      forall k | !(s.handle.shards < k <= last)
        ensures SameAt(ShardsOf(r), ShardsOf(s), k)
      {
        assert SameAt(ShardsOf(r), ShardsOf(r0), k);
        assert SameAt(ShardsOf(r0), ShardsOf(s), k);
      }
    }
  }

  /** One shard write for a TRANSIT handle: one call, the counter moved to
      the next index, and only that index touched, holding the shard when
      the call succeeds. */
  lemma TransitShardWrite(failing: set<nat>, size: int, q: seq<JByte>, s: Snapshot)
    requires s.handle.IsTransit() && q != []
    ensures ShardWrite(failing, size, q, s).1.handle == s.handle.(size := size, shards := s.handle.shards + 1)
    ensures ShardWrite(failing, size, q, s).1.calls == s.calls + 1
    ensures forall k | k != s.handle.shards + 1 :: SameAt(ShardsOf(ShardWrite(failing, size, q, s).1), ShardsOf(s), k)
    ensures s.calls in failing ==> SameAt(ShardsOf(ShardWrite(failing, size, q, s).1), ShardsOf(s), s.handle.shards + 1)
    ensures s.calls !in failing ==>
      var k := s.handle.shards + 1;
      k in ShardsOf(ShardWrite(failing, size, q, s).1) && ShardsOf(ShardWrite(failing, size, q, s).1)[k] == q
  {
  }

  /** Index k holds the same shard, or none, in both families. */
  ghost predicate SameAt(a: map<int, seq<JByte>>, b: map<int, seq<JByte>>, k: int)
  {
    (k in a <==> k in b) && (k in b ==> a[k] == b[k])
  }

  /** Index k of `shards` after dispatching `qs` from snapshot s: the
      (k - n)-th shard when its call succeeded, and otherwise what index k
      held before, n being the handle's shard counter in s. */
  ghost predicate Landed(failing: set<nat>, s: Snapshot, qs: seq<seq<JByte>>, k: int, shards: map<int, seq<JByte>>)
    requires s.handle.shards < k <= s.handle.shards + |qs|
  {
    var j := k - s.handle.shards - 1;
    if s.calls + j in failing then SameAt(shards, ShardsOf(s), k)
    else k in shards && shards[k] == qs[j]
  }

  /** A shard write keeps the handle's identity, passes only when none of its
      calls threw, throws IOException from its last call, and throws
      NullPointerException only for a NEW handle without a description. */
  lemma ShardStepPropagates(failing: set<nat>, size: int, shard: seq<JByte>,
                            f: HBaseFile, rows: map<string, Row>, calls: nat,
                            o: Outcome, g: HBaseFile, rows': map<string, Row>, calls': nat)
    requires ShardStep(failing, size, shard, f, rows, calls, o, g, rows', calls')
    ensures Propagates(failing, calls, calls', o)
    ensures g.identifier == f.identifier && g.desc == f.desc && g.createTime == f.createTime
    ensures o == Fail(NullPointer) ==> f.IsNew() && f.desc.None?
    ensures o.Fail? ==> rows' == rows || (f.IsNew() && o == Fail(IOFault))
  {
  }

  /** A shard write marks a NEW handle TRANSIT, records the running size and
      the next shard index unless its metadata save failed, passes on a
      healthy store given a description, and does nothing to a sealed handle. */
  lemma ShardStepShape(failing: set<nat>, size: int, shard: seq<JByte>,
                       f: HBaseFile, rows: map<string, Row>, calls: nat,
                       o: Outcome, g: HBaseFile, rows': map<string, Row>, calls': nat)
    requires ShardStep(failing, size, shard, f, rows, calls, o, g, rows', calls')
    ensures g.status == if f.IsNew() then TRANSIT else f.status
    ensures (g.size == size && g.shards == f.shards + 1) || (o.Fail? && f.IsNew() && g == f.(status := TRANSIT))
    ensures failing == {} && g.desc.Some? ==> o == Pass
    ensures f.Integrity() ==> o == Pass && rows' == rows && calls' == calls
  {
  }

  /** A shard write keeps the stream's store invariant, the shard appended to
      the stored ones while a new object is being written. */
  lemma ShardStepStored(newObject: bool, finalized: bool, base: HBaseFile, rows0: map<string, Row>,
                        stored: seq<seq<JByte>>, finalContent: seq<JByte>,
                        failing: set<nat>, size: int, shard: seq<JByte>,
                        f: HBaseFile, rows: map<string, Row>, calls: nat,
                        o: Outcome, g: HBaseFile, rows': map<string, Row>, calls': nat)
    requires StoreState(newObject, finalized, base, rows0, f, stored, finalContent, rows, failing == {})
    requires ShardStep(failing, size, shard, f, rows, calls, o, g, rows', calls')
    requires shard != [] || !newObject || finalized
    ensures StoreState(newObject, finalized, base, rows0, g,
                       if newObject && !finalized then stored + [shard] else stored, finalContent, rows', failing == {})
  {
    if newObject && !finalized {
      var id := base.identifier;
      var rows1 := if f.IsNew() then rows[id := WithMeta(RowOf(rows, id), f.(status := TRANSIT))] else rows;
      AppendedState(base, rows0, f, stored, shard, size, rows, rows1, rows');
    }
  }

  /** As written, a failed metadata save of a NEW object's first dispatched
      shard is swallowed before the counter moves: the handle is already
      TRANSIT, so the next shard is stored under index 1 and the first shard
      is lost, leaving no gap for a reader to stop at. */
  lemma FirstSaveFailureShifts(size: int, f: HBaseFile, a: seq<JByte>, b: seq<JByte>)
    requires f.IsNew() && f.desc.Some? && f.shards == 0 && a != [] && b != []
    ensures Dispatched({0}, size, Snapshot(f, map[], 0), [a, b]).handle ==
      f.(status := TRANSIT, size := size, shards := 1)
    ensures ShardsOf(Dispatched({0}, size, Snapshot(f, map[], 0), [a, b])) == map[1 := b]
  {
    assert [a, b][..1] == [a];
    var none: seq<seq<JByte>> := [];
    assert [a][..0] == none;
    assert Dispatched({0}, size, Snapshot(f, map[], 0), [a]) == Snapshot(f.(status := TRANSIT), map[], 1);
  }

  /** Dispatching a + b is dispatching a, then b from where a left off. */
  lemma {:induction false} DispatchedAppend(failing: set<nat>, size: int, s: Snapshot,
                                            a: seq<seq<JByte>>, b: seq<seq<JByte>>)
    ensures Dispatched(failing, size, s, a + b) == Dispatched(failing, size, Dispatched(failing, size, s, a), b)
    decreases |b|
  {
    if b == [] {
      assert a + b == a;
    } else {
      DispatchedAppend(failing, size, s, a, b[..|b| - 1]);
      assert (a + b)[..|a + b| - 1] == a + b[..|b| - 1];
    }
  }

  /** The first shard write of a NEW object with a description, when neither
      the metadata save nor the put throws: the object turns TRANSIT, the
      shard is stored under the next index and no other index changes. */
  lemma NewShardWrite(failing: set<nat>, size: int, q: seq<JByte>, s: Snapshot)
    requires s.handle.IsNew() && s.handle.desc.Some? && q != []
    requires s.calls !in failing && s.calls + 1 !in failing
    ensures ShardWrite(failing, size, q, s).1.handle ==
      s.handle.(status := TRANSIT, size := size, shards := s.handle.shards + 1)
    ensures ShardWrite(failing, size, q, s).1.calls == s.calls + 2
    ensures s.handle.shards + 1 in ShardsOf(ShardWrite(failing, size, q, s).1)
    ensures ShardsOf(ShardWrite(failing, size, q, s).1)[s.handle.shards + 1] == q
    ensures forall k | k != s.handle.shards + 1 :: SameAt(ShardsOf(ShardWrite(failing, size, q, s).1), ShardsOf(s), k)
  {
  }

  /** After dispatching qs from s, every shard sits under its own index, in
      queue order, right after the counter of s; the counter is past the last
      of them; and no other index changed. */
  ghost predicate LandedAll(s: Snapshot, qs: seq<seq<JByte>>, r: Snapshot)
  {
    && r.handle.shards == s.handle.shards + |qs|
    && (forall k | s.handle.shards < k <= s.handle.shards + |qs| ::
          k in ShardsOf(r) && ShardsOf(r)[k] == qs[k - s.handle.shards - 1])
    && (forall k | !(s.handle.shards < k <= s.handle.shards + |qs|) :: SameAt(ShardsOf(r), ShardsOf(s), k))
  }

  /** A dispatch for a TRANSIT object none of whose calls threw stores every
      shard under the next indices, in order. */
  lemma PassedTransitLandsAll(failing: set<nat>, size: int, s: Snapshot, qs: seq<seq<JByte>>)
    requires s.handle.IsTransit()
    requires forall i | 0 <= i < |qs| :: qs[i] != []
    requires NoFailure(failing, s.calls, s.calls + |qs|)
    ensures LandedAll(s, qs, Dispatched(failing, size, s, qs))
  {
    var r := Dispatched(failing, size, s, qs);
    var n := s.handle.shards;
    DispatchedSkipsFailed(failing, size, s, qs);
    forall k | n < k <= n + |qs|
      ensures k in ShardsOf(r) && ShardsOf(r)[k] == qs[k - n - 1]
    {
      assert s.calls + (k - n - 1) !in failing;
      assert Landed(failing, s, qs, k, ShardsOf(r));
    }
  }

  /** A dispatch none of whose calls threw stores every shard, for a NEW
      object with a description as for a TRANSIT one: nothing is lost and
      nothing is shifted. */
  lemma PassedDispatchLandsAll(failing: set<nat>, size: int, s: Snapshot, qs: seq<seq<JByte>>)
    requires s.handle.desc.Some? && (s.handle.IsNew() || s.handle.IsTransit())
    requires forall i | 0 <= i < |qs| :: qs[i] != []
    requires NoFailure(failing, s.calls, Dispatched(failing, size, s, qs).calls)
    ensures LandedAll(s, qs, Dispatched(failing, size, s, qs))
  {
    if qs == [] {
    } else if s.handle.IsTransit() {
      DispatchedSkipsFailed(failing, size, s, qs);
      PassedTransitLandsAll(failing, size, s, qs);
    } else {
      var s1 := FirstOfNew(failing, size, s, qs);
      NewShardWrite(failing, size, qs[0], s);
      PassedTransitLandsAll(failing, size, s1, qs[1..]);
      assert [qs[0]] + qs[1..] == qs;
      LandedAllCons(s, s1, qs[0], qs[1..], Dispatched(failing, size, s, qs));
    }
  }

  /** The first shard write of a dispatch for a NEW object: when no call of
      the whole dispatch throws, it is a clean save and put, and the rest of
      the dispatch continues from there for a TRANSIT object. */
  lemma FirstOfNew(failing: set<nat>, size: int, s: Snapshot, qs: seq<seq<JByte>>) returns (s1: Snapshot)
    requires s.handle.desc.Some? && s.handle.IsNew() && qs != []
    requires forall i | 0 <= i < |qs| :: qs[i] != []
    requires NoFailure(failing, s.calls, Dispatched(failing, size, s, qs).calls)
    ensures s1 == ShardWrite(failing, size, qs[0], s).1
    ensures Dispatched(failing, size, s, qs) == Dispatched(failing, size, s1, qs[1..])
    ensures s.calls !in failing && s.calls + 1 !in failing && s1.calls == s.calls + 2
    ensures s1.handle.IsTransit() && s1.handle.shards == s.handle.shards + 1
    ensures NoFailure(failing, s1.calls, s1.calls + |qs| - 1)
  {
    var rest := qs[1..];
    s1 := ShardWrite(failing, size, qs[0], s).1;
    assert Dispatched(failing, size, s, [qs[0]]) == s1 by {
      var none: seq<seq<JByte>> := [];
      assert [qs[0]][..0] == none;
    }
    assert [qs[0]] + rest == qs;
    DispatchedAppend(failing, size, s, [qs[0]], rest);
    DispatchedSkipsFailed(failing, size, s1, rest);
    assert s1.calls > s.calls;
    assert s.calls !in failing;
    assert s1.calls == s.calls + 2;
  }

  /** A batch of full queued shards whose dispatch made no failing call
      landed all of them. */
  lemma PassedBatchLandsAll(failing: set<nat>, size: int, s: Snapshot, queue: seq<seq<JByte>>,
                            from: int, to: int, r: Snapshot)
    requires AllFull(queue) && 0 <= from <= to <= |queue|
    requires r == Dispatched(failing, size, s, queue[from..to])
    requires Propagates(failing, s.calls, r.calls, Pass)
    ensures s.handle.desc.Some? && (s.handle.IsNew() || s.handle.IsTransit()) ==> LandedAll(s, queue[from..to], r)
  {
    if s.handle.desc.Some? && (s.handle.IsNew() || s.handle.IsTransit()) {
      FullSliceNonEmpty(queue, from, to);
      PassedDispatchLandsAll(failing, size, s, queue[from..to]);
    }
  }

  /** One shard stored under the next index, followed by the rest landed
      after it, is the whole sequence landed. */
  lemma LandedAllCons(s: Snapshot, s1: Snapshot, q: seq<JByte>, rest: seq<seq<JByte>>, r: Snapshot)
    requires s1.handle.shards == s.handle.shards + 1
    requires s.handle.shards + 1 in ShardsOf(s1) && ShardsOf(s1)[s.handle.shards + 1] == q
    requires forall k | k != s.handle.shards + 1 :: SameAt(ShardsOf(s1), ShardsOf(s), k)
    requires LandedAll(s1, rest, r)
    ensures LandedAll(s, [q] + rest, r)
  {
    var n := s.handle.shards;
    var qs := [q] + rest;
    forall k | n < k <= n + |qs|
      ensures k in ShardsOf(r) && ShardsOf(r)[k] == qs[k - n - 1]
    {
      if k == n + 1 {
        assert SameAt(ShardsOf(r), ShardsOf(s1), n + 1);
      } else {
        assert rest[k - n - 2] == qs[k - n - 1];
      }
    }
    forall k | !(n < k <= n + |qs|)
      ensures SameAt(ShardsOf(r), ShardsOf(s), k)
    {
      assert SameAt(ShardsOf(r), ShardsOf(s1), k);
      assert SameAt(ShardsOf(s1), ShardsOf(s), k);
    }
  }

  class Writer {
    const table: Table
    var hbFile: HBaseFile
    var cache: array?<JByte>
    var cursor: int
    var size: int
    var needFlushShardList: seq<seq<JByte>>
    var startShardCursor: int
    const cachePollNum: int := 2

    /** Every byte written so far, in order. */
    ghost var written: seq<JByte>
    /** The handle as the stream was opened on it. */
    ghost const base: HBaseFile
    /** The table's rows when the stream was opened. */
    ghost const rows0: map<string, Row>
    /** Opened as upload opens it: a NEW handle with zero size and shard
        counter and a description, no row for the identifier, and a backend
        that never fails. */
    ghost const newObject: bool
    /** The shards this stream has appended to the store, in order. */
    ghost var stored: seq<seq<JByte>>
    /** The object has been marked INTEGRITY in the store by this stream. */
    ghost var finalized: bool
    /** The bytes written when the object was marked INTEGRITY. */
    ghost var finalContent: seq<JByte>

    /** The bytes buffered in the current, not yet full, shard. */
    ghost function Pending(): seq<JByte>
      reads this`cache, this`cursor, cache
    {
      if cache != null && 0 <= cursor <= cache.Length then cache[..cursor] else []
    }

    /** Buffer invariant: queued shards are full, a live buffer holds between 1
        and CACHE_SIZE - 1 bytes, and queue plus buffer are exactly the bytes
        written, whose count is `size`. */
    ghost predicate Buffered()
      reads this`cache, this`cursor, this`needFlushShardList, this`size, this`written, cache
    {
      && (cache != null ==> cache.Length == CACHE_SIZE && 1 <= cursor < CACHE_SIZE)
      && Layout(needFlushShardList, Pending(), size, written)
    }

    /** Between calls, fewer than cachePollNum queued shards await dispatch. */
    ghost predicate Valid()
      reads this`cache, this`cursor, this`needFlushShardList, this`size, this`written, this`startShardCursor, cache
    {
      && Buffered()
      && 0 <= startShardCursor <= |needFlushShardList|
      && |needFlushShardList| - startShardCursor <= |needFlushShardList| % cachePollNum
    }

    /** What the store holds for the object: see StoreState. */
    ghost predicate Stored()
      reads this`hbFile, this`stored, this`finalized, this`finalContent, table`rows
    {
      StoreState(newObject, finalized, base, rows0, hbFile, stored, finalContent, table.rows, table.Healthy())
    }

    /** Between calls the appended shards are exactly the dispatched prefix of
        the queue, and the recorded size is theirs. */
    ghost predicate Synced()
      reads this`hbFile, this`stored, this`finalized, this`finalContent, this`needFlushShardList,
        this`startShardCursor, table`rows
    {
      && Stored()
      && (newObject && !finalized ==>
            0 <= startShardCursor <= |needFlushShardList| && stored == needFlushShardList[..startShardCursor])
      && (newObject && !finalized && stored != [] ==> hbFile.size == |Flatten(stored)|)
    }

    constructor (t: Table, f: HBaseFile)
      ensures Valid() && Synced()
      ensures table == t && hbFile == f && base == f && rows0 == t.rows
      ensures cache == null && cursor == 0 && size == 0 && needFlushShardList == [] && startShardCursor == 0
      ensures written == [] && stored == [] && !finalized
      ensures newObject <==> f.IsNew() && f.shards == 0 && f.size == 0 && f.desc.Some? && f.identifier !in t.rows && t.Healthy()
    {
      table := t;
      hbFile := f;
      cache := null;
      cursor := 0;
      size := 0;
      needFlushShardList := [];
      startShardCursor := 0;
      written := [];
      base := f;
      rows0 := t.rows;
      newObject := f.IsNew() && f.shards == 0 && f.size == 0 && f.desc.Some? && f.identifier !in t.rows && t.Healthy();
      stored := [];
      finalized := false;
      finalContent := [];
    }

    /** write(int): store `(byte) b` in the buffer; a buffer that becomes full
        is queued, and a queue whose length reaches a multiple of cachePollNum
        is dispatched. Never throws: dispatch failures are swallowed. Once the
        handle is INTEGRITY nothing more reaches the store. */
    method Write(b: int)
      requires Valid() && Synced()
      modifies this`cache, this`cursor, this`size, this`written, this`needFlushShardList,
        this`startShardCursor, this`hbFile, this`stored, cache, table
      ensures Valid() && Synced()
      ensures written == old(written) + [ToByte(b)]
      ensures |old(Pending())| + 1 < CACHE_SIZE ==>
        needFlushShardList == old(needFlushShardList) && startShardCursor == old(startShardCursor)
      ensures |old(Pending())| + 1 == CACHE_SIZE ==>
        && needFlushShardList == old(needFlushShardList) + [old(Pending()) + [ToByte(b)]]
        && startShardCursor == if |needFlushShardList| % cachePollNum == 0 then |needFlushShardList| else old(startShardCursor)
      ensures old(hbFile.Integrity()) ==> table.rows == old(table.rows)
      ensures cache != null ==> cache == old(cache) || fresh(cache)
      // on any store: a dispatched batch is written with failures swallowed; otherwise nothing reaches the store
      ensures |old(Pending())| + 1 == CACHE_SIZE && |needFlushShardList| % cachePollNum == 0 ==>
        Snapshot(hbFile, table.rows, table.calls) ==
          Dispatched(table.failing, size, Snapshot(old(hbFile), old(table.rows), old(table.calls)),
                     needFlushShardList[old(startShardCursor)..])
      ensures |old(Pending())| + 1 < CACHE_SIZE || |needFlushShardList| % cachePollNum != 0 ==>
        hbFile == old(hbFile) && table.rows == old(table.rows) && table.calls == old(table.calls)
    {
      ghost var pending := Pending();
      LayoutPush(needFlushShardList, pending, size, written, ToByte(b));
      Buffer(ToByte(b));
      size := size + 1;
      written := written + [ToByte(b)];
      if cursor == CACHE_SIZE {
        assert cache[..] == cache[..cursor];
        QueueFull();
      }
    }

    /** The first half of write(int): allocate the buffer when there is none
        and store the byte at the cursor. */
    method Buffer(x: JByte)
      requires cache != null ==> cache.Length == CACHE_SIZE && 1 <= cursor < CACHE_SIZE
      modifies this`cache, this`cursor, cache
      ensures cache != null && cache.Length == CACHE_SIZE && 1 <= cursor <= CACHE_SIZE
      ensures cache[..cursor] == old(Pending()) + [x]
      ensures cursor < CACHE_SIZE ==> Pending() == cache[..cursor]
      ensures old(cache) == null ==> fresh(cache)
      ensures old(cache) != null ==> cache == old(cache)
    {
      if cache == null {
        cache := new JByte[CACHE_SIZE](_ => 0);
        cursor := 0;
      }
      ghost var pending := cache[..cursor];
      cache[cursor] := x;
      cursor := cursor + 1;
      assert cache[..cursor] == pending + [x];
    }

    /** The full buffer joins the queue and the buffer is dropped; the queue
        reaching a multiple of cachePollNum dispatches the batch. */
    method QueueFull()
      requires cache != null && cache.Length == CACHE_SIZE && cursor == CACHE_SIZE
      requires Layout(needFlushShardList, cache[..cursor], size, written)
      requires 0 <= startShardCursor <= |needFlushShardList|
      requires |needFlushShardList| - startShardCursor <= |needFlushShardList| % cachePollNum
      requires Synced()
      modifies this`cache, this`needFlushShardList, this`startShardCursor, this`hbFile, this`stored, table
      ensures Valid() && Synced() && cache == null
      ensures needFlushShardList == old(needFlushShardList) + [old(cache[..])]
      ensures startShardCursor == if |needFlushShardList| % cachePollNum == 0 then |needFlushShardList| else old(startShardCursor)
      ensures old(hbFile.Integrity()) ==> table.rows == old(table.rows)
      // on any store: the batch from the old cursor on is written with failures swallowed,
      // and without a dispatch nothing reaches the store
      ensures |needFlushShardList| % cachePollNum == 0 ==>
        Snapshot(hbFile, table.rows, table.calls) ==
          Dispatched(table.failing, size, Snapshot(old(hbFile), old(table.rows), old(table.calls)),
                     needFlushShardList[old(startShardCursor)..])
      ensures |needFlushShardList| % cachePollNum != 0 ==>
        hbFile == old(hbFile) && table.rows == old(table.rows) && table.calls == old(table.calls)
    {
      ghost var queue := needFlushShardList;
      Enqueue();
      if |needFlushShardList| % cachePollNum == 0 {
        assert |queue| % cachePollNum == cachePollNum - 1;
        assert startShardCursor + cachePollNum >= |needFlushShardList|;
        WriteCacheListToHBase();
        assert startShardCursor == |needFlushShardList|;
        assert needFlushShardList[old(startShardCursor)..startShardCursor] == needFlushShardList[old(startShardCursor)..];
        if newObject && !finalized {
          assert stored == needFlushShardList[..|needFlushShardList|] == needFlushShardList;
        }
      } else {
        assert |needFlushShardList| % cachePollNum == |queue| % cachePollNum + 1;
      }
    }

    /** The first half of queuing a full buffer: append it to the queue and
        drop it. */
    method Enqueue()
      requires cache != null && cache.Length == CACHE_SIZE && cursor == CACHE_SIZE
      requires Layout(needFlushShardList, cache[..cursor], size, written)
      requires 0 <= startShardCursor <= |needFlushShardList| && Synced()
      modifies this`cache, this`needFlushShardList
      ensures cache == null && needFlushShardList == old(needFlushShardList) + [old(cache[..])]
      ensures Buffered() && Synced()
    {
      var full := cache[..];
      assert full == cache[..cursor];
      LayoutQueue(needFlushShardList, full, size, written);
      ghost var queue := needFlushShardList;
      needFlushShardList := needFlushShardList + [full];
      assert needFlushShardList[..startShardCursor] == queue[..startShardCursor];
      cache := null;
    }

    /** writeCacheListToHBase: store at most cachePollNum queued shards, in
        queue order, starting at startShardCursor. A failed write is
        swallowed and the cursor still advances. */
    method WriteCacheListToHBase()
      requires Buffered() && Stored() && 0 <= startShardCursor <= |needFlushShardList|
      requires newObject && !finalized ==> stored == needFlushShardList[..startShardCursor]
      modifies this`hbFile, this`startShardCursor, this`stored, table
      ensures Stored() && 0 <= startShardCursor <= |needFlushShardList|
      ensures newObject && !finalized ==> stored == needFlushShardList[..startShardCursor]
      ensures startShardCursor == if old(startShardCursor) + cachePollNum < |needFlushShardList|
        then old(startShardCursor) + cachePollNum else |needFlushShardList|
      ensures newObject && startShardCursor > old(startShardCursor) ==> hbFile.size == size
      ensures startShardCursor == old(startShardCursor) ==> hbFile == old(hbFile) && table.rows == old(table.rows)
      ensures old(hbFile.Integrity()) ==> table.rows == old(table.rows)
      // on any store: the dispatched shards are written in queue order, failures swallowed
      ensures Snapshot(hbFile, table.rows, table.calls) ==
        Dispatched(table.failing, size, Snapshot(old(hbFile), old(table.rows), old(table.calls)),
                   needFlushShardList[old(startShardCursor)..startShardCursor])
    {
      var endShard := startShardCursor + cachePollNum;
      while startShardCursor < endShard && startShardCursor < |needFlushShardList|
        invariant old(startShardCursor) <= startShardCursor <= |needFlushShardList|
        invariant startShardCursor <= endShard
        invariant Stored()
        invariant newObject && !finalized ==> stored == needFlushShardList[..startShardCursor]
        invariant newObject && startShardCursor > old(startShardCursor) ==> hbFile.size == size
        invariant startShardCursor == old(startShardCursor) ==> hbFile == old(hbFile) && table.rows == old(table.rows)
        invariant old(hbFile.Integrity()) ==> hbFile.Integrity() && table.rows == old(table.rows)
        invariant Snapshot(hbFile, table.rows, table.calls) ==
          Dispatched(table.failing, size, Snapshot(old(hbFile), old(table.rows), old(table.calls)),
                     needFlushShardList[old(startShardCursor)..startShardCursor])
      {
        DispatchNext(Snapshot(old(hbFile), old(table.rows), old(table.calls)), old(startShardCursor));
      }
    }

    /** writeCacheListToHBase as evidently intended: the batch stops at the
        first shard write that throws and reports it instead of swallowing
        it, so a batch that passes has lost and shifted no shard. */
    method WriteCacheListToHBaseCorrected() returns (o: Outcome)
      requires Buffered() && Stored() && 0 <= startShardCursor <= |needFlushShardList|
      requires newObject && !finalized ==> stored == needFlushShardList[..startShardCursor]
      modifies this`hbFile, this`startShardCursor, this`stored, table
      ensures Stored() && old(startShardCursor) <= startShardCursor <= |needFlushShardList|
      ensures newObject && !finalized ==> stored == needFlushShardList[..startShardCursor]
      ensures o == Pass ==> startShardCursor == if old(startShardCursor) + cachePollNum < |needFlushShardList|
        then old(startShardCursor) + cachePollNum else |needFlushShardList|
      ensures o.Fail? ==> startShardCursor < |needFlushShardList| && startShardCursor < old(startShardCursor) + cachePollNum
      ensures Propagates(table.failing, old(table.calls), table.calls, o)
      ensures Snapshot(hbFile, table.rows, table.calls) ==
        Dispatched(table.failing, size, Snapshot(old(hbFile), old(table.rows), old(table.calls)),
                   needFlushShardList[old(startShardCursor)..if o.Fail? then startShardCursor + 1 else startShardCursor])
      // a batch that passes stored every one of its shards under the next indices, in order
      ensures o == Pass && old(hbFile.desc.Some? && (hbFile.IsNew() || hbFile.IsTransit())) ==>
        LandedAll(Snapshot(old(hbFile), old(table.rows), old(table.calls)),
                  needFlushShardList[old(startShardCursor)..startShardCursor],
                  Snapshot(hbFile, table.rows, table.calls))
    {
      var endShard := if startShardCursor + cachePollNum < |needFlushShardList|
        then startShardCursor + cachePollNum else |needFlushShardList|;
      ghost var none: seq<seq<JByte>> := [];
      assert needFlushShardList[startShardCursor..startShardCursor] == none;
      o := FlushUpTo(endShard, Snapshot(hbFile, table.rows, table.calls), startShardCursor);
      if o == Pass {
        PassedBatchLandsAll(table.failing, size, Snapshot(old(hbFile), old(table.rows), old(table.calls)),
                            needFlushShardList, old(startShardCursor), startShardCursor,
                            Snapshot(hbFile, table.rows, table.calls));
      }
    }

    /** Write the queued shards from the cursor up to `end`, stopping at the
        first write that throws; the state stays the dispatch of the queue
        from `from` on, starting at `s0`. */
    method FlushUpTo(end: int, ghost s0: Snapshot, ghost from: int) returns (o: Outcome)
      requires Buffered() && Stored() && 0 <= from <= startShardCursor <= end <= |needFlushShardList|
      requires newObject && !finalized ==> stored == needFlushShardList[..startShardCursor]
      requires Snapshot(hbFile, table.rows, table.calls) ==
        Dispatched(table.failing, size, s0, needFlushShardList[from..startShardCursor])
      modifies this`hbFile, this`startShardCursor, this`stored, table
      ensures Stored() && old(startShardCursor) <= startShardCursor <= end
      ensures newObject && !finalized ==> stored == needFlushShardList[..startShardCursor]
      ensures o == Pass ==> startShardCursor == end
      ensures o.Fail? ==> startShardCursor < end
      ensures Propagates(table.failing, old(table.calls), table.calls, o)
      ensures Snapshot(hbFile, table.rows, table.calls) ==
        Dispatched(table.failing, size, s0, needFlushShardList[from..if o.Fail? then startShardCursor + 1 else startShardCursor])
    {
      o := Pass;
      while startShardCursor < end
        invariant Stored()
        invariant old(startShardCursor) <= startShardCursor <= end
        invariant newObject && !finalized ==> stored == needFlushShardList[..startShardCursor]
        invariant o == Pass && Propagates(table.failing, old(table.calls), table.calls, Pass)
        invariant Snapshot(hbFile, table.rows, table.calls) ==
          Dispatched(table.failing, size, s0, needFlushShardList[from..startShardCursor])
      {
        ghost var calls := table.calls;
        var r := FlushNext(s0, from);
        PropagatesChain(table.failing, old(table.calls), calls, table.calls, r);
        if r.Fail? {
          return r;
        }
      }
    }

    /** One round of the dispatch loop: write the shard at the cursor,
        swallow its outcome and move the cursor on, so that the state is
        still the dispatch of the queue from `from` on, starting at `s0`. */
    method DispatchNext(ghost s0: Snapshot, ghost from: int)
      requires Buffered() && Stored() && 0 <= from <= startShardCursor < |needFlushShardList|
      requires newObject && !finalized ==> stored == needFlushShardList[..startShardCursor]
      requires Snapshot(hbFile, table.rows, table.calls) ==
        Dispatched(table.failing, size, s0, needFlushShardList[from..startShardCursor])
      modifies this`hbFile, this`startShardCursor, this`stored, table
      ensures Stored() && startShardCursor == old(startShardCursor) + 1
      ensures newObject && !finalized ==> stored == needFlushShardList[..startShardCursor]
      ensures newObject ==> hbFile.size == size
      ensures old(hbFile.Integrity()) ==> hbFile.Integrity() && table.rows == old(table.rows)
      ensures Snapshot(hbFile, table.rows, table.calls) ==
        Dispatched(table.failing, size, s0, needFlushShardList[from..startShardCursor])
    {
      DispatchedNext(table.failing, size, s0, needFlushShardList, from, startShardCursor);
      var completed := WriteAtCursor();
      startShardCursor := startShardCursor + 1;
    }

    /** One round of the loop of flush0: write the shard at the cursor and
        move the cursor on only when that write passed. Either way the state
        is the dispatch of the queue from `from` on, starting at `s0`, up to
        and including that shard. */
    method FlushNext(ghost s0: Snapshot, ghost from: int) returns (o: Outcome)
      requires Buffered() && Stored() && 0 <= from <= startShardCursor < |needFlushShardList|
      requires newObject && !finalized ==> stored == needFlushShardList[..startShardCursor]
      requires Snapshot(hbFile, table.rows, table.calls) ==
        Dispatched(table.failing, size, s0, needFlushShardList[from..startShardCursor])
      modifies this`hbFile, this`startShardCursor, this`stored, table
      ensures Stored()
      ensures startShardCursor == if o.Fail? then old(startShardCursor) else old(startShardCursor) + 1
      ensures newObject && !finalized ==> stored == needFlushShardList[..startShardCursor]
      ensures newObject ==> hbFile.size == size && o == Pass
      ensures old(hbFile.Integrity()) ==> o == Pass && hbFile.Integrity() && table.rows == old(table.rows)
      ensures Snapshot(hbFile, table.rows, table.calls) ==
        Dispatched(table.failing, size, s0, needFlushShardList[from..old(startShardCursor) + 1])
      ensures Propagates(table.failing, old(table.calls), table.calls, o)
      ensures o == Fail(NullPointer) ==> hbFile.desc.None?
      ensures hbFile.identifier == old(hbFile.identifier) && hbFile.desc == old(hbFile.desc)
    {
      DispatchedNext(table.failing, size, s0, needFlushShardList, from, startShardCursor);
      o := WriteAtCursor();
      if o == Pass {
        startShardCursor := startShardCursor + 1;
      }
    }

    /** Write the queued shard under the cursor, as both the dispatch loop
        and the loop of flush0 do; the cursor is left for the caller. */
    method WriteAtCursor() returns (o: Outcome)
      requires Buffered() && Stored() && 0 <= startShardCursor < |needFlushShardList|
      requires newObject && !finalized ==> stored == needFlushShardList[..startShardCursor]
      modifies this`hbFile, this`stored, table
      ensures Stored()
      ensures newObject && !finalized ==> stored == needFlushShardList[..startShardCursor + 1]
      ensures newObject ==> hbFile.size == size && o == Pass
      ensures old(hbFile.Integrity()) ==> o == Pass && hbFile.Integrity() && table.rows == old(table.rows)
      ensures Snapshot(hbFile, table.rows, table.calls) ==
        ShardWrite(table.failing, size, needFlushShardList[startShardCursor],
                   Snapshot(old(hbFile), old(table.rows), old(table.calls))).1
      ensures Propagates(table.failing, old(table.calls), table.calls, o)
      ensures o == Fail(NullPointer) ==> hbFile.desc.None?
      ensures hbFile.identifier == old(hbFile.identifier) && hbFile.desc == old(hbFile.desc)
    {
      NextOfQueue(needFlushShardList, startShardCursor);
      ghost var f, rows, calls := hbFile, table.rows, table.calls;
      o := WriteCacheToHBase(needFlushShardList[startShardCursor]);
      ShardStepPropagates(table.failing, size, needFlushShardList[startShardCursor], f, rows, calls,
                          o, hbFile, table.rows, table.calls);
    }

    /** writeCacheToHBase: a NEW object is first marked TRANSIT and its
        metadata saved; then the handle records the running byte total and
        the next shard index, and the shard is appended under that index. */
    method WriteCacheToHBase(shard: seq<JByte>) returns (o: Outcome)
      requires Stored()
      modifies this`hbFile, this`stored, table
      ensures shard != [] || !newObject || finalized ==> Stored()
      ensures newObject && !finalized ==> stored == old(stored) + [shard]
      ensures stored == old(stored) || (newObject && !finalized)
      ensures hbFile.identifier == old(hbFile.identifier)
      ensures hbFile.status == if old(hbFile.IsNew()) then TRANSIT else old(hbFile.status)
      ensures (hbFile.size == size && hbFile.shards == old(hbFile.shards) + 1)
        || (o.Fail? && old(hbFile.IsNew()) && hbFile == old(hbFile).(status := TRANSIT))
      ensures table.Healthy() && hbFile.desc.Some? ==> o == Pass
      ensures old(hbFile.Integrity()) ==> o == Pass && table.rows == old(table.rows) && table.calls == old(table.calls)
      ensures ShardStep(table.failing, size, shard, old(hbFile), old(table.rows), old(table.calls),
                        o, hbFile, table.rows, table.calls)
    {
      ghost var f, rows, calls, st := hbFile, table.rows, table.calls, stored;
      o := Pass;
      if hbFile.IsNew() {
        hbFile := hbFile.(status := TRANSIT);
        o := SaveOrUpdateMeta(table, hbFile);
      }
      if o == Pass {
        hbFile := hbFile.(size := size);
        hbFile := hbFile.(shards := hbFile.shards + 1);
        o := AddShard(table, hbFile, Some(shard));
        if newObject && !finalized {
          stored := stored + [shard];
        }
      }
      ShardStepShape(table.failing, size, shard, f, rows, calls, o, hbFile, table.rows, table.calls);
      if shard != [] || !newObject || finalized {
        ShardStepStored(newObject, finalized, base, rows0, st, finalContent, table.failing, size, shard,
                        f, rows, calls, o, hbFile, table.rows, table.calls);
      }
    }

    /** flush0, which both flush() and close() run: store every shard still
        queued, in order, then the buffered bytes as the one possibly short
        final shard, then mark the object INTEGRITY and save its metadata if
        it is not already. With no live buffer (nothing written, or an exact
        multiple of CACHE_SIZE) copying the buffer throws
        NullPointerException once the queued shards are stored. */
    method Flush0() returns (o: Outcome)
      requires Valid() && Synced()
      modifies this`hbFile, this`startShardCursor, this`stored, this`finalized, this`finalContent, table
      ensures Valid() && Synced()
      ensures o == Pass ==> startShardCursor == |needFlushShardList| && hbFile.Integrity()
      ensures old(cache) == null ==> o.Fail?
      ensures old(cache) == null && (newObject || old(hbFile.Integrity())) ==> o == Fail(NullPointer)
      ensures newObject && !old(finalized) && cache != null ==> o == Pass && finalized && finalContent == written
      ensures newObject && !old(finalized) && cache == null ==> !finalized && stored == needFlushShardList
      ensures old(hbFile.Integrity()) ==>
        table.rows == old(table.rows) && finalized == old(finalized) && finalContent == old(finalContent)
      // close's own failures propagate: the first failed call ends it
      ensures Propagates(table.failing, old(table.calls), table.calls, o)
      ensures o == Fail(NullPointer) ==> old(cache) == null || hbFile.desc.None?
    {
      o := FlushQueued();
      if o.Fail? {
        return;
      }
      // Arrays.copyOf(cache, cursor)
      if cache == null {
        return Fail(NullPointer);
      }
      ghost var calls1 := table.calls;
      var last := cache[..cursor];
      o := WriteClose(last);
      PropagatesChain(table.failing, old(table.calls), calls1, table.calls, o);
    }

    /** The end of flush0 once the queue is stored: the buffered bytes as the
        last shard, then the seal. */
    method WriteClose(last: seq<JByte>) returns (o: Outcome)
      requires Valid() && Stored() && cache != null && last == cache[..cursor]
      requires startShardCursor == |needFlushShardList|
      requires newObject && !finalized ==> stored == needFlushShardList
      modifies this`hbFile, this`stored, this`finalized, this`finalContent, table
      ensures Valid() && Synced()
      ensures o == Pass ==> hbFile.Integrity()
      ensures newObject && !old(finalized) ==> o == Pass && finalized && finalContent == written
      ensures old(hbFile.Integrity()) ==>
        table.rows == old(table.rows) && finalized == old(finalized) && finalContent == old(finalContent)
      ensures Propagates(table.failing, old(table.calls), table.calls, o)
      ensures o == Fail(NullPointer) ==> hbFile.desc.None?
    {
      ghost var f, rows, calls := hbFile, table.rows, table.calls;
      o := WriteLast(last);
      ShardStepPropagates(table.failing, size, last, f, rows, calls, o, hbFile, table.rows, table.calls);
      if o.Fail? {
        return;
      }
      ghost var calls1 := table.calls;
      o := Seal();
      PropagatesChain(table.failing, calls, calls1, table.calls, o);
    }

    /** flush0 as evidently intended: the trailing shard is stored only when
        bytes are buffered, so every length, including zero and exact
        multiples of CACHE_SIZE, ends sealed. */
    method Flush0Corrected() returns (o: Outcome)
      requires Valid() && Synced()
      modifies this`hbFile, this`startShardCursor, this`stored, this`finalized, this`finalContent, table
      ensures Valid() && Synced()
      ensures o == Pass ==> startShardCursor == |needFlushShardList| && hbFile.Integrity()
      ensures newObject && !old(finalized) ==> o == Pass && finalized && finalContent == written
      ensures old(hbFile.Integrity()) ==>
        table.rows == old(table.rows) && finalized == old(finalized) && finalContent == old(finalContent)
      ensures Propagates(table.failing, old(table.calls), table.calls, o)
      ensures o == Fail(NullPointer) ==> hbFile.desc.None?
    {
      o := FlushQueued();
      if o.Fail? {
        return;
      }
      ghost var calls1 := table.calls;
      if cache != null {
        var last := cache[..cursor];
        o := WriteClose(last);
      } else {
        if newObject && !finalized {
          ChunksOfLayout(needFlushShardList, []);
          assert Flatten(needFlushShardList) + [] == written;
          assert needFlushShardList + [] == needFlushShardList;
        }
        o := Seal();
      }
      PropagatesChain(table.failing, old(table.calls), calls1, table.calls, o);
    }

    /** The loop of flush0 over the shards still queued: the first failure
        propagates and leaves the cursor on the shard that failed. Without a
        live buffer the handle ends synchronised with the queue. */
    method FlushQueued() returns (o: Outcome)
      requires Valid() && Synced()
      modifies this`hbFile, this`startShardCursor, this`stored, table
      ensures Valid() && Stored()
      ensures o == Pass ==> startShardCursor == |needFlushShardList|
      ensures newObject || old(hbFile.Integrity()) ==> o == Pass
      ensures newObject && !finalized ==> stored == needFlushShardList
      ensures cache == null ==> Synced()
      ensures newObject && !finalized && cache == null ==> hbFile.size == |written|
      ensures old(hbFile.Integrity()) ==> hbFile.Integrity() && table.rows == old(table.rows)
      // a failure stops the loop and propagates, with the cursor on the shard that failed
      ensures Propagates(table.failing, old(table.calls), table.calls, o)
      ensures o.Fail? ==> old(startShardCursor) <= startShardCursor < |needFlushShardList|
      ensures o == Fail(NullPointer) ==> hbFile.desc.None?
      ensures hbFile.identifier == old(hbFile.identifier) && hbFile.desc == old(hbFile.desc)
      // on any store: the shards up to and including the one that failed are written in queue order
      ensures Snapshot(hbFile, table.rows, table.calls) ==
        Dispatched(table.failing, size, Snapshot(old(hbFile), old(table.rows), old(table.calls)),
                   needFlushShardList[old(startShardCursor)..if o.Fail? then startShardCursor + 1 else startShardCursor])
    {
      o := Pass;
      while startShardCursor < |needFlushShardList|
        invariant Buffered() && Stored()
        invariant old(startShardCursor) <= startShardCursor <= |needFlushShardList|
        invariant newObject && !finalized ==> stored == needFlushShardList[..startShardCursor]
        invariant newObject && !finalized && startShardCursor > old(startShardCursor) ==> hbFile.size == size
        invariant newObject && !finalized && startShardCursor == old(startShardCursor) && stored != [] ==>
          hbFile.size == |Flatten(stored)|
        invariant old(hbFile.Integrity()) ==> hbFile.Integrity() && table.rows == old(table.rows)
        invariant o == Pass && Propagates(table.failing, old(table.calls), table.calls, Pass)
        invariant hbFile.identifier == old(hbFile.identifier) && hbFile.desc == old(hbFile.desc)
        invariant Snapshot(hbFile, table.rows, table.calls) ==
          Dispatched(table.failing, size, Snapshot(old(hbFile), old(table.rows), old(table.calls)),
                     needFlushShardList[old(startShardCursor)..startShardCursor])
      {
        ghost var calls := table.calls;
        var r := FlushNext(Snapshot(old(hbFile), old(table.rows), old(table.calls)), old(startShardCursor));
        PropagatesChain(table.failing, old(table.calls), calls, table.calls, r);
        if r.Fail? {
          return r;
        }
      }
      if newObject && !finalized {
        assert needFlushShardList[..startShardCursor] == needFlushShardList;
      }
    }

    /** Store the buffered bytes as the shard after every queued one. */
    method WriteLast(last: seq<JByte>) returns (o: Outcome)
      requires Valid() && Stored() && cache != null && last == cache[..cursor]
      requires startShardCursor == |needFlushShardList|
      requires newObject && !finalized ==> stored == needFlushShardList
      modifies this`hbFile, this`stored, table
      ensures Valid() && Stored()
      ensures newObject ==> o == Pass
      ensures newObject && !finalized ==> stored == Chunks(written) && hbFile.size == |written|
      ensures old(hbFile.Integrity()) ==> hbFile.Integrity() && table.rows == old(table.rows)
      ensures ShardStep(table.failing, size, last, old(hbFile), old(table.rows), old(table.calls),
                        o, hbFile, table.rows, table.calls)
    {
      o := WriteCacheToHBase(last);
      if newObject && !finalized {
        ChunksOfLayout(needFlushShardList, last);
        assert Flatten(needFlushShardList) + last == written;
      }
    }

    /** Mark the object INTEGRITY and save its metadata, unless it already is. */
    method Seal() returns (o: Outcome)
      requires Valid() && Stored()
      requires newObject && !finalized ==> stored == Chunks(written) && hbFile.size == |written|
      modifies this`hbFile, this`finalized, this`finalContent, table
      ensures Valid() && Synced() && (newObject ==> finalized)
      ensures o == Pass ==> hbFile.Integrity()
      ensures newObject || old(hbFile.Integrity()) ==> o == Pass
      ensures newObject && !old(finalized) ==> finalContent == written
      ensures old(hbFile.Integrity()) ==>
        table.rows == old(table.rows) && finalized == old(finalized) && finalContent == old(finalContent)
      // the save, on any store
      ensures old(hbFile.Integrity()) ==> o == Pass && hbFile == old(hbFile) && table.calls == old(table.calls)
      ensures !old(hbFile.Integrity()) ==> hbFile == old(hbFile).(status := INTEGRITY)
      ensures !old(hbFile.Integrity()) && hbFile.desc.None? ==>
        o == Fail(NullPointer) && table.rows == old(table.rows) && table.calls == old(table.calls)
      ensures !old(hbFile.Integrity()) && hbFile.desc.Some? ==>
        && table.calls == old(table.calls) + 1
        && (old(table.calls) in table.failing ==> o == Fail(IOFault) && table.rows == old(table.rows))
        && (old(table.calls) !in table.failing ==>
              o == Pass && table.rows == old(table.rows)[hbFile.identifier := WithMeta(RowOf(old(table.rows), hbFile.identifier), hbFile)])
      ensures Propagates(table.failing, old(table.calls), table.calls, o)
    {
      o := Pass;
      if !hbFile.Integrity() {
        if newObject && !finalized {
          SealedState(base, rows0, hbFile, stored, written, table.rows);
        }
        hbFile := hbFile.(status := INTEGRITY);
        o := SaveOrUpdateMeta(table, hbFile);
        if newObject && !finalized {
          finalized := true;
          finalContent := written;
        }
      }
    }
  }
}
