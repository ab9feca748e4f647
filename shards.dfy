// How an object's bytes are laid out as shards: the fixed shard size, the
// intended split of content into shards, the shard column family built from a
// list of shards, and the byte stream a reader sees over a shard family.

module Shards {
  import opened HBaseFileModel

  /** Bytes per shard: 1 MiB, as in the source. The proofs use the constant
      as defined. */
  const CACHE_SIZE: nat := 1024 * 1024

  /** Concatenation of shards in order. */
  function Flatten(qs: seq<seq<JByte>>): seq<JByte>
  {
    if qs == [] then [] else Flatten(qs[..|qs| - 1]) + qs[|qs| - 1]
  }

  lemma FlattenAppend(qs: seq<seq<JByte>>, q: seq<JByte>)
    ensures Flatten(qs + [q]) == Flatten(qs) + q
  {
    assert (qs + [q])[..|qs|] == qs;
  }

  lemma {:induction false} FlattenCons(q: seq<JByte>, qs: seq<seq<JByte>>)
    ensures Flatten([q] + qs) == q + Flatten(qs)
    decreases |qs|
  {
    if qs == [] {
      assert [q] + qs == [] + [q];
      FlattenAppend([], q);
    } else {
      var init, last := qs[..|qs| - 1], qs[|qs| - 1];
      var qi := [q] + init;
      assert qs == init + [last];
      assert [q] + qs == qi + [last];
      calc {
        Flatten([q] + qs);
        Flatten(qi + [last]);
        { FlattenAppend(qi, last); }
        Flatten(qi) + last;
        { FlattenCons(q, init); }
        (q + Flatten(init)) + last;
        q + (Flatten(init) + last);
        { FlattenAppend(init, last); }
        q + Flatten(qs);
      }
    }
  }

  /** Every shard has the full CACHE_SIZE bytes. */
  predicate AllFull(qs: seq<seq<JByte>>)
  {
    forall i | 0 <= i < |qs| :: |qs[i]| == CACHE_SIZE
  }

  /** Shards of full size contribute exactly CACHE_SIZE bytes each. */
  lemma {:induction false} FlattenFullLength(qs: seq<seq<JByte>>)
    requires AllFull(qs)
    ensures |Flatten(qs)| == |qs| * CACHE_SIZE
  {
    if qs != [] {
      var init := qs[..|qs| - 1];
      FlattenFullLength(init);
      assert |Flatten(qs)| == |Flatten(init)| + CACHE_SIZE;
    }
  }

  /** The intended split of content into shards: full shards of CACHE_SIZE
      bytes and one shorter, non-empty trailing shard when the length is not a
      multiple of CACHE_SIZE. Empty content has no shard. */
  function Chunks(s: seq<JByte>): seq<seq<JByte>>
    decreases |s|
  {
    if |s| <= CACHE_SIZE then (if s == [] then [] else [s])
    else [s[..CACHE_SIZE]] + Chunks(s[CACHE_SIZE..])
  }

  /** Splitting loses and reorders nothing. */
  lemma {:induction false} FlattenChunks(s: seq<JByte>)
    ensures Flatten(Chunks(s)) == s
    decreases |s|
  {
    if |s| <= CACHE_SIZE {
      if s != [] {
        FlattenAppend([], s);
        assert [] + [s] == [s];
      }
    } else {
      var rest := s[CACHE_SIZE..];
      FlattenChunks(rest);
      FlattenCons(s[..CACHE_SIZE], Chunks(rest));
      assert s == s[..CACHE_SIZE] + rest;
    }
  }

  /** Every shard is non-empty and at most CACHE_SIZE bytes, and all but the
      last are exactly CACHE_SIZE bytes. */
  lemma {:induction false} ChunkSizes(s: seq<JByte>)
    ensures forall i | 0 <= i < |Chunks(s)| :: 0 < |Chunks(s)[i]| <= CACHE_SIZE
    ensures forall i | 0 <= i < |Chunks(s)| - 1 :: |Chunks(s)[i]| == CACHE_SIZE
    decreases |s|
  {
    if |s| > CACHE_SIZE {
      var rest := s[CACHE_SIZE..];
      ChunkSizes(rest);
      var cs := Chunks(s);
      assert cs == [s[..CACHE_SIZE]] + Chunks(rest);
      forall i | 1 <= i < |cs| ensures cs[i] == Chunks(rest)[i - 1] {
      }
    }
  }

  /** The number of shards is the length divided by CACHE_SIZE, rounded up:
      an object of 2.5 shard sizes has 3 shards. */
  lemma {:induction false} ChunkCount(s: seq<JByte>)
    ensures |Chunks(s)| == (|s| + CACHE_SIZE - 1) / CACHE_SIZE
    decreases |s|
  {
    if |s| > CACHE_SIZE {
      var rest := s[CACHE_SIZE..];
      ChunkCount(rest);
      assert |s| + CACHE_SIZE - 1 == (|rest| + CACHE_SIZE - 1) + CACHE_SIZE;
    }
  }

  /** Full shards followed by a short tail are exactly the intended split of
      their concatenation. */
  lemma {:induction false} ChunksOfLayout(qs: seq<seq<JByte>>, tail: seq<JByte>)
    requires AllFull(qs)
    requires |tail| < CACHE_SIZE
    ensures Chunks(Flatten(qs) + tail) == qs + (if tail == [] then [] else [tail])
    decreases |qs|
  {
    if qs == [] {
      assert Flatten(qs) + tail == tail;
    } else {
      var rest := qs[1..];
      FlattenCons(qs[0], rest);
      assert qs == [qs[0]] + rest;
      var s := Flatten(qs) + tail;
      assert s == qs[0] + (Flatten(rest) + tail);
      FlattenFullLength(rest);
      if rest == [] && tail == [] {
        assert s == qs[0];
      } else {
        assert |s| > CACHE_SIZE;
        assert s[..CACHE_SIZE] == qs[0];
        assert s[CACHE_SIZE..] == Flatten(rest) + tail;
        ChunksOfLayout(rest, tail);
      }
    }
  }

  /** The shard column family holding `qs` under indices 1, 2, ..., |qs|. */
  function ShardMap(qs: seq<seq<JByte>>): (m: map<int, seq<JByte>>)
    ensures forall i :: i in m <==> 1 <= i <= |qs|
    ensures forall i | 1 <= i <= |qs| :: m[i] == qs[i - 1]
  {
    if qs == [] then map[] else ShardMap(qs[..|qs| - 1])[|qs| := qs[|qs| - 1]]
  }

  lemma ShardMapAppend(qs: seq<seq<JByte>>, q: seq<JByte>)
    ensures ShardMap(qs + [q]) == ShardMap(qs)[|qs| + 1 := q]
  {
    assert (qs + [q])[..|qs|] == qs;
  }

  function KeysFrom(data: map<int, seq<JByte>>, i: int): set<int>
  {
    set k | k in data && k >= i
  }

  /** The bytes a shard-by-shard reader yields starting at shard `i`: shard i,
      then i + 1, and so on, stopping at the first missing or empty shard. */
  function StreamFrom(data: map<int, seq<JByte>>, i: int): seq<JByte>
    decreases |KeysFrom(data, i)|
  {
    if i in data && data[i] != [] then
      assert KeysFrom(data, i) == KeysFrom(data, i + 1) + {i};
      data[i] + StreamFrom(data, i + 1)
    else []
  }

  /** A reader never gets past a missing index: what it yields from shard i
      is the same whether or not the family holds anything at or after a
      missing index k. */
  lemma {:induction false} StreamStopsAtGap(data: map<int, seq<JByte>>, i: int, k: int)
    requires i <= k && k !in data
    ensures StreamFrom(data, i) == StreamFrom(data - KeysFrom(data, k), i)
    decreases k - i
  {
    var below := data - KeysFrom(data, k);
    if i < k {
      assert (i in data) == (i in below);
      StreamStopsAtGap(data, i + 1, k);
    } else {
      assert k !in below;
    }
  }

  /** Reading a shard family laid out from non-empty shards yields their
      concatenation: stored order is read order. */
  lemma {:induction false} StreamOfShardMap(qs: seq<seq<JByte>>, k: nat)
    requires forall q | q in qs :: q != []
    requires k <= |qs|
    ensures StreamFrom(ShardMap(qs), k + 1) == Flatten(qs[k..])
    decreases |qs| - k
  {
    if k == |qs| {
      assert qs[k..] == [];
    } else {
      StreamOfShardMap(qs, k + 1);
      assert qs[k] in qs;
      assert ShardMap(qs)[k + 1] == qs[k];
      assert qs[k..] == [qs[k]] + qs[k + 1..];
      FlattenCons(qs[k], qs[k + 1..]);
    }
  }

  /** Byte-exact round trip through the intended shard layout. */
  lemma ChunksRoundTrip(s: seq<JByte>)
    ensures StreamFrom(ShardMap(Chunks(s)), 1) == s
  {
    FlattenChunks(s);
    ChunkSizes(s);
    var qs := Chunks(s);
    forall q | q in qs ensures q != [] {
      var i :| 0 <= i < |qs| && qs[i] == q;
    }
    StreamOfShardMap(qs, 0);
    assert qs[0..] == qs;
  }
}
