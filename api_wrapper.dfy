// The store access layer (HBaseAPIWrapper): metadata save and load, the
// guarded shard append, the guarded shard read, row delete and the metadata
// lookup by row key, each as an operation on the abstract Table. Every backend
// call may throw IOException (Table.Call); a failed call changes nothing.

module HBaseAPIWrapper {
  import opened HBaseFileModel
  import opened Shards

  /** The row after a put of the five metadata cells of `f`. */
  function WithMeta(row: Row, f: HBaseFile): (r: Row)
    requires f.desc.Some?
  {
    row.(desc := f.desc, size := Some(f.size), shards := Some(f.shards),
         status := Some(f.status), createTime := Some(f.createTime))
  }

  /** The row after the put of addShard: the payload under index `f.shards`,
      and the shard-count and size cells set from the handle. */
  function WithShard(row: Row, f: HBaseFile, shard: seq<JByte>): (r: Row)
  {
    row.(data := row.data[f.shards := shard], shards := Some(f.shards), size := Some(f.size))
  }

  /** readMeta(Result, hbFile): the handle with its five metadata fields read
      from the row's cells. A missing size, shard-count, status or create-time
      cell is a NullPointerException; a missing description reads as null. */
  function DecodeMeta(row: Row, f: HBaseFile): (r: Result<HBaseFile>)
    ensures r.Ok? <==> row.size.Some? && row.shards.Some? && row.status.Some? && row.createTime.Some?
    ensures r.Err? ==> r.fault == NullPointer
    ensures r.Ok? ==>
      && r.value.identifier == f.identifier && r.value.desc == row.desc
      && Some(r.value.size) == row.size && Some(r.value.shards) == row.shards
      && Some(r.value.status) == row.status && Some(r.value.createTime) == row.createTime
  {
    if row.size.None? || row.shards.None? || row.status.None? || row.createTime.None? then
      Err(NullPointer)
    else
      Ok(f.(desc := row.desc, size := row.size.value, shards := row.shards.value,
            status := row.status.value, createTime := row.createTime.value))
  }

  /** readMeta(hbFile) once the Get has succeeded: decode an existing row,
      otherwise mark the handle NEW and leave its other fields as they are. */
  function LoadMeta(rows: map<string, Row>, f: HBaseFile): Result<HBaseFile>
  {
    var row := RowOf(rows, f.identifier);
    if HasMeta(row) then DecodeMeta(row, f) else Ok(f.(status := NEW))
  }

  /** The shard family a reader of handle `f` can see: all of it when the
      handle is INTEGRITY, none of it otherwise. */
  function Visible(rows: map<string, Row>, f: HBaseFile): map<int, seq<JByte>>
  {
    if f.Integrity() then RowOf(rows, f.identifier).data else map[]
  }

  method SaveOrUpdateMeta(t: Table, f: HBaseFile) returns (o: Outcome)
    modifies t
    ensures f.desc.None? ==> o == Fail(NullPointer) && t.rows == old(t.rows) && t.calls == old(t.calls)
    ensures f.desc.Some? ==> t.calls == old(t.calls) + 1 && (o == Pass <==> old(t.calls) !in t.failing)
    ensures o == Pass ==> t.rows == old(t.rows)[f.identifier := WithMeta(RowOf(old(t.rows), f.identifier), f)]
    ensures o.Fail? ==> t.rows == old(t.rows)
    ensures f.desc.Some? && o.Fail? ==> o.fault == IOFault
  {
    if f.desc.None? {
      // Bytes.toBytes(null) dereferences the description
      return Fail(NullPointer);
    }
    var ok := t.Call();
    if !ok {
      return Fail(IOFault);
    }
    t.rows := t.rows[f.identifier := WithMeta(RowOf(t.rows, f.identifier), f)];
    o := Pass;
  }

  method ReadMeta(t: Table, f: HBaseFile) returns (r: Result<HBaseFile>)
    modifies t`calls
    ensures t.calls == old(t.calls) + 1
    ensures old(t.calls) in t.failing ==> r == Err(IOFault)
    ensures old(t.calls) !in t.failing ==> r == LoadMeta(t.rows, f)
  {
    var ok := t.Call();
    if !ok {
      return Err(IOFault);
    }
    var row := RowOf(t.rows, f.identifier);
    if HasMeta(row) {
      r := DecodeMeta(row, f);
    } else {
      r := Ok(f.(status := NEW));
    }
  }

  method AddShard(t: Table, f: HBaseFile, shard: Option<seq<JByte>>) returns (o: Outcome)
    modifies t
    ensures !(f.IsTransit() && shard.Some? && |shard.value| > 0) ==>
      o == Pass && t.rows == old(t.rows) && t.calls == old(t.calls)
    ensures f.IsTransit() && shard.Some? && |shard.value| > 0 ==>
      && t.calls == old(t.calls) + 1 && (o == Pass <==> old(t.calls) !in t.failing)
      && (o.Fail? ==> o.fault == IOFault && t.rows == old(t.rows))
      && (o == Pass ==> t.rows == old(t.rows)[f.identifier := WithShard(RowOf(old(t.rows), f.identifier), f, shard.value)])
  {
    o := Pass;
    if f.IsTransit() && shard.Some? && |shard.value| > 0 {
      var ok := t.Call();
      if !ok {
        return Fail(IOFault);
      }
      t.rows := t.rows[f.identifier := WithShard(RowOf(t.rows, f.identifier), f, shard.value)];
    }
  }

  method ReadShard(t: Table, f: HBaseFile, shard: int) returns (r: Result<Option<seq<JByte>>>)
    modifies t`calls
    ensures !f.Integrity() ==> r == Ok(None) && t.calls == old(t.calls)
    ensures f.Integrity() ==> t.calls == old(t.calls) + 1
    ensures f.Integrity() && old(t.calls) in t.failing ==> r == Err(IOFault)
    ensures r.Ok? ==> (r.value.Some? <==> shard in Visible(t.rows, f))
    ensures r.Ok? && r.value.Some? ==> r.value.value == RowOf(t.rows, f.identifier).data[shard]
    ensures f.Integrity() && old(t.calls) !in t.failing ==> r.Ok?
  {
    if !f.Integrity() {
      return Ok(None);
    }
    var ok := t.Call();
    if !ok {
      return Err(IOFault);
    }
    var row := RowOf(t.rows, f.identifier);
    if shard in row.data {
      r := Ok(Some(row.data[shard]));
    } else {
      r := Ok(None);
    }
  }

  method Delete(t: Table, f: HBaseFile) returns (o: Outcome)
    modifies t
    ensures t.calls == old(t.calls) + 1
    ensures o == Pass <==> old(t.calls) !in t.failing
    ensures o.Fail? ==> o.fault == IOFault && t.rows == old(t.rows)
    ensures o == Pass ==> t.rows == old(t.rows) - {f.identifier}
  {
    var ok := t.Call();
    if !ok {
      return Fail(IOFault);
    }
    t.rows := t.rows - {f.identifier};
    o := Pass;
  }

  /** The metadata family of a row, as a Get restricted to it returns it. */
  function MetaOnly(row: Row): Row
  {
    row.(data := map[])
  }

  method GetResultByRowKey(t: Table, id: string) returns (r: Result<Option<Row>>)
    modifies t`calls
    ensures t.calls == old(t.calls) + 1
    ensures old(t.calls) in t.failing ==> r == Err(IOFault)
    ensures old(t.calls) !in t.failing ==> r.Ok?
    ensures r.Ok? ==> (r.value.None? <==> !HasMeta(RowOf(t.rows, id)))
    ensures r.Ok? && r.value.Some? ==> r.value.value == MetaOnly(RowOf(t.rows, id))
  {
    var ok := t.Call();
    if !ok {
      return Err(IOFault);
    }
    var row := RowOf(t.rows, id);
    if HasMeta(row) {
      r := Ok(Some(MetaOnly(row)));
    } else {
      r := Ok(None);
    }
  }

  // Properties of the store contract

  /** Save then load: every metadata field comes back as saved. */
  lemma SaveLoadRoundTrip(rows: map<string, Row>, f: HBaseFile, g: HBaseFile)
    requires f.desc.Some? && g.identifier == f.identifier
    ensures LoadMeta(rows[f.identifier := WithMeta(RowOf(rows, f.identifier), f)], g) == Ok(f)
  {
  }

  /** After delete, loading yields a NEW handle that keeps its other fields. */
  lemma DeleteThenLoadIsNew(rows: map<string, Row>, f: HBaseFile)
    ensures LoadMeta(rows - {f.identifier}, f) == Ok(f.(status := NEW))
    ensures Visible(rows - {f.identifier}, f.(status := INTEGRITY)) == map[]
  {
  }

  /** A store whose rows all have complete metadata never makes readMeta fail. */
  lemma LoadWellFormed(rows: map<string, Row>, f: HBaseFile)
    requires WellFormed(rows)
    ensures LoadMeta(rows, f).Ok?
  {
  }

  /** A handle that is not INTEGRITY sees no shard at all. */
  lemma IncompleteSeesNothing(rows: map<string, Row>, f: HBaseFile)
    requires !f.Integrity()
    ensures StreamFrom(Visible(rows, f), 1) == []
  {
  }

  /** The shard put keeps the stored count equal to the index of the last
      stored shard, and the metadata cells other than size and count as they
      were. */
  lemma AddShardRecordsIndex(row: Row, f: HBaseFile, shard: seq<JByte>)
    ensures WithShard(row, f, shard).shards == Some(f.shards)
    ensures f.shards in WithShard(row, f, shard).data
    ensures WithShard(row, f, shard).data[f.shards] == shard
    ensures forall i | i in row.data && i != f.shards :: WithShard(row, f, shard).data[i] == row.data[i]
    ensures WithShard(row, f, shard).status == row.status && WithShard(row, f, shard).desc == row.desc
  {
  }
}
