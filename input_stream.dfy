// The chunked reader (HBaseFileInputStream): a byte-at-a-time cursor over
// shards 1, 2, ... of one object. At most one shard is buffered; the next one
// is fetched when the buffer is used up, and the stream ends (-1) at the first
// missing or empty shard.

module HBaseFileInputStream {
  import opened HBaseFileModel
  import opened Shards
  import opened HBaseAPIWrapper

  /** The end-of-stream value of `read()`. */
  const EOF: int := -1

  class Reader {
    const table: Table
    const hbFile: HBaseFile
    /** Index of the next shard to fetch. */
    var shard: int
    /** The buffered shard (Java `byte[] cache`; null is None). The reader
        never writes into it, so it is held as a value. */
    var cache: Option<seq<JByte>>
    var cursor: int
    /** The shard indices requested from the store so far, in order. */
    ghost var requested: seq<int>

    /** The buffer holds at least one unread byte, except for an empty shard,
        which stays buffered (cursor 0) until the next read drops it. */
    ghost predicate Valid()
      reads this`shard, this`cache, this`cursor, this`requested
    {
      && shard >= 1
      && |requested| == shard - 1
      && (forall i | 0 <= i < |requested| :: requested[i] == i + 1)
      && (cache.Some? ==> 0 <= cursor < |cache.value| || (cache.value == [] && cursor == 0))
    }

    /** The unread bytes of the buffered shard. */
    ghost function Buffered(): seq<JByte>
      reads this`cache, this`cursor
      requires cache.Some? ==> 0 <= cursor <= |cache.value|
    {
      if cache.Some? then cache.value[cursor..] else []
    }

    /** Everything later reads can still deliver: the rest of the buffered
        shard, then the stream from the next shard on. */
    ghost function Remaining(): seq<JByte>
      reads this`cache, this`cursor, this`shard, table`rows
      requires cache.Some? ==> 0 <= cursor <= |cache.value|
    {
      Buffered() + StreamFrom(Visible(table.rows, hbFile), shard)
    }

    constructor (t: Table, f: HBaseFile)
      ensures table == t && hbFile == f
      ensures shard == 1 && cache == None && cursor == 0 && requested == []
      ensures Valid()
      ensures Remaining() == StreamFrom(Visible(t.rows, f), 1)
    {
      table := t;
      hbFile := f;
      shard := 1;
      cache := None;
      cursor := 0;
      requested := [];
    }

    /** read(): the next byte as 0..255, or -1 at the end of the stream. */
    method Read() returns (r: Result<int>)
      requires Valid()
      modifies this`shard, this`cache, this`cursor, this`requested, table`calls
      ensures Valid()
      ensures r.Ok? ==> r.value == EOF || 0 <= r.value < 256
      // a shard is fetched exactly when none is buffered, and the index advances
      // even when the fetch fails or finds nothing
      ensures old(cache).None? ==> shard == old(shard) + 1 && requested == old(requested) + [old(shard)]
      ensures old(cache).Some? ==> shard == old(shard) && requested == old(requested)
      ensures old(cache).Some? || !hbFile.Integrity() ==> table.calls == old(table.calls)
      // a buffered byte, or the first byte of a fetched shard, is the head of the stream
      ensures old(cache) != Some([]) && r.Ok? && r != Ok(EOF) ==>
        && old(Remaining()) != []
        && r.value == Unsigned(old(Remaining())[0]) && Remaining() == old(Remaining())[1..]
      // end of stream: nothing left and the fetched shard was missing or empty
      ensures r == Ok(EOF) <==> old(cache).None? && old(Remaining()) == [] && r.Ok?
      ensures r == Ok(EOF) ==> Remaining() == StreamFrom(Visible(table.rows, hbFile), old(shard) + 1)
      // the empty-shard leftover: the next read yields the widened -1 byte
      ensures old(cache) == Some([]) ==> r == Ok(255) && cache.None? && Remaining() == old(Remaining())
      ensures r.Err? ==> r == Err(IOFault) && old(cache).None? && hbFile.Integrity() && cache.None?
      ensures r.Err? <==> old(cache).None? && hbFile.Integrity() && old(table.calls) in table.failing
      ensures cache == Some([]) ==> r == Ok(EOF)
      // an object that is not complete reads as empty
      ensures !hbFile.Integrity() && old(cache).None? ==> r == Ok(EOF)
    {
      if cache.None? {
        var fetched :- ReadCacheFromHBase();
        cache := fetched;
        cursor := 0;
        if cache.None? || |cache.value| == 0 {
          return Ok(EOF);
        }
      }
      ghost var buffered, later := Buffered(), StreamFrom(Visible(table.rows, hbFile), shard);
      var v := ReadBuffered();
      r := Ok(v);
      if buffered != [] {
        TailOfConcat(buffered, later);
      }
    }

    /** The buffered half of read(): the byte under the cursor, widened to
        0..255, with the buffer dropped once used up. An empty buffered shard
        yields the widened -1 byte and is dropped. */
    method ReadBuffered() returns (v: int)
      requires Valid() && cache.Some?
      modifies this`cache, this`cursor
      ensures Valid() && cache != Some([]) && 0 <= v < 256
      ensures old(cache) == Some([]) ==> v == 255 && cache.None?
      ensures old(cache) != Some([]) ==>
        old(Buffered()) != [] && v == Unsigned(old(Buffered())[0]) && Buffered() == old(Buffered())[1..]
    {
      var b: JByte := -1;
      if cursor < |cache.value| {
        b := cache.value[cursor];
        cursor := cursor + 1;
      }
      if cursor >= |cache.value| {
        cache := None;
      }
      v := Unsigned(b);
    }

    /** Taking the head of the buffered bytes takes the head of everything
        left to read. */
    static lemma TailOfConcat(buffered: seq<JByte>, later: seq<JByte>)
      requires buffered != []
      ensures (buffered + later)[0] == buffered[0]
      ensures (buffered + later)[1..] == buffered[1..] + later
    {
    }

    /** readCacheFromHBase(): fetch shard `shard` and advance the index,
        whether or not the fetch succeeds. A fetched non-empty shard is the
        head of the stream from its index; a missing or empty one ends it. */
    method ReadCacheFromHBase() returns (r: Result<Option<seq<JByte>>>)
      requires Valid() && cache.None?
      modifies this`shard, this`requested, table`calls
      ensures shard == old(shard) + 1 && requested == old(requested) + [old(shard)]
      ensures Valid()
      ensures !hbFile.Integrity() ==> r == Ok(None) && table.calls == old(table.calls)
      ensures r.Err? <==> hbFile.Integrity() && old(table.calls) in table.failing
      ensures r.Err? ==> r.fault == IOFault
      ensures r.Ok? && r.value.Some? && r.value.value != [] ==>
        StreamFrom(Visible(table.rows, hbFile), old(shard)) == r.value.value + StreamFrom(Visible(table.rows, hbFile), shard)
      ensures r.Ok? && (r.value.None? || r.value.value == []) ==>
        StreamFrom(Visible(table.rows, hbFile), old(shard)) == []
    {
      var k := shard;
      shard := shard + 1;
      requested := requested + [k];
      r := ReadShard(table, hbFile, k);
    }
  }
}
