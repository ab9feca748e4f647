// Upload and download orchestration (HBaseFileUtils): content-addressed,
// deduplicated upload through the chunked writer, the completeness gate of
// download and its byte copy through the chunked reader, and the per-file
// results of a batch upload. The content hash is a parameter (`md5`); local
// files are LocalFile objects holding their bytes.

module HBaseFileUtils {
  import opened HBaseFileModel
  import opened Shards
  import opened HBaseAPIWrapper
  import opened HBaseFileOutputStream
  import opened HBaseFileInputStream

  /** A local file: its name and its bytes, None when it does not exist. */
  class LocalFile {
    const name: string
    var content: Option<seq<JByte>>

    constructor (n: string, c: Option<seq<JByte>>)
      ensures name == n && content == c
    {
      name := n;
      content := c;
    }
  }

  /** HBaseFile.Factory.buildHBaseFile: a new handle (zero size, shard
      counter 0, created at `now`) loaded with readMeta. */
  method BuildHBaseFile(t: Table, id: string, desc: Option<string>, now: int) returns (r: Result<HBaseFile>)
    modifies t`calls
    ensures t.calls == old(t.calls) + 1
    ensures old(t.calls) in t.failing ==> r == Err(IOFault)
    ensures old(t.calls) !in t.failing ==> r == LoadMeta(t.rows, NewHandle(id, desc, now))
  {
    r := ReadMeta(t, NewHandle(id, desc, now));
  }

  /** The stored object `id` is complete: readMeta decodes it and finds it
      INTEGRITY. */
  predicate IsComplete(rows: map<string, Row>, id: string, desc: Option<string>, now: int)
  {
    var f := LoadMeta(rows, NewHandle(id, desc, now));
    f.Ok? && f.value.Integrity()
  }

  /** The byte stream a complete object `id` reads as. */
  function StoredContent(rows: map<string, Row>, id: string): seq<JByte>
  {
    StreamFrom(RowOf(rows, id).data, 1)
  }

  /** A store row written by a complete upload is complete, and reads back as
      the uploaded content: download(upload(x)) == x. */
  lemma {:induction false} CompleteRowRoundTrip(rows: map<string, Row>, g: HBaseFile, content: seq<JByte>,
                                                desc: Option<string>, now: int)
    requires g.desc.Some?
    ensures IsComplete(rows[g.identifier := CompleteRow(g, content)], g.identifier, desc, now)
    ensures StoredContent(rows[g.identifier := CompleteRow(g, content)], g.identifier) == content
  {
    ChunksRoundTrip(content);
  }

  /** Full shards stored under 1..n read back as their concatenation. */
  lemma {:induction false} FullShardsStream(qs: seq<seq<JByte>>)
    requires AllFull(qs)
    ensures StreamFrom(ShardMap(qs), 1) == Flatten(qs)
  {
    forall q | q in qs ensures q != [] {
      var i :| 0 <= i < |qs| && qs[i] == q;
    }
    StreamOfShardMap(qs, 0);
    assert qs[0..] == qs;
  }

  /** What upload(File) of a local file named `name` with bytes `src` (None
      when it does not exist) promises, relating the rows and the call
      counter before it to the rows after it and its result:
      - success returns the hash of the content;
      - a missing file is an IOException and changes nothing;
      - an object already complete is neither deleted nor rewritten;
      - otherwise, on a healthy store, the row is replaced by the complete
        object, or, with the close as written and an empty buffer, the call
        fails with NullPointerException, the content stored but the object
        left TRANSIT;
      - a NullPointerException comes only from a stored row missing a
        metadata cell or from that close. */
  ghost predicate Uploaded(failing: set<nat>, md5: seq<JByte> -> string, name: string, src: Option<seq<JByte>>,
                           now: int, corrected: bool, rows: map<string, Row>, calls: nat,
                           rows': map<string, Row>, r: Result<string>)
  {
    && (r.Ok? ==> src.Some? && r.value == md5(src.value))
    && (src.None? ==> r == Err(IOFault) && rows' == rows)
    && (src.Some? && calls !in failing && IsComplete(rows, md5(src.value), Some(name), now) ==>
          r == Ok(md5(src.value)) && rows' == rows)
    && (src.Some? && failing == {} && !IsComplete(rows, md5(src.value), Some(name), now) &&
        LoadMeta(rows, NewHandle(md5(src.value), Some(name), now)).Ok? ==>
          var id, content := md5(src.value), src.value;
          && (corrected || |content| % CACHE_SIZE != 0 ==>
                r == Ok(id) && rows' == rows[id := CompleteRow(NewHandle(id, Some(name), now), content)])
          && (!corrected && |content| % CACHE_SIZE == 0 ==>
                && r == Err(NullPointer)
                && (content == [] ==> rows' == rows - {id})
                && (content != [] ==> id in rows' && rows'[id].status == Some(TRANSIT) && StoredContent(rows', id) == content)))
    && (r == Err(NullPointer) ==>
          src.Some? &&
          (LoadMeta(rows, NewHandle(md5(src.value), Some(name), now)).Err? ||
           (!corrected && |src.value| % CACHE_SIZE == 0)))
  }

  /** On a healthy store whose rows all have complete metadata, an upload of
      an existing file with the corrected close succeeds with the content's
      hash and leaves every row with complete metadata. */
  lemma UploadedHealthy(md5: seq<JByte> -> string, name: string, content: seq<JByte>, now: int,
                        rows: map<string, Row>, calls: nat, rows': map<string, Row>, r: Result<string>)
    requires WellFormed(rows)
    requires Uploaded({}, md5, name, Some(content), now, true, rows, calls, rows', r)
    ensures r == Ok(md5(content)) && WellFormed(rows')
  {
    var id := md5(content);
    LoadWellFormed(rows, NewHandle(id, Some(name), now));
    if !IsComplete(rows, id, Some(name), now) {
      var row := CompleteRow(NewHandle(id, Some(name), now), content);
      assert CompleteMeta(row);
      forall k | k in rows' && HasMeta(rows'[k])
        ensures CompleteMeta(rows'[k])
      {
        if k != id {
          assert rows'[k] == rows[k];
        }
      }
    }
  }

  /** upload(File): hash the content; if the object is complete, do nothing;
      otherwise delete its row, reload a fresh handle, stream every byte
      through a writer and close it. `corrected` selects the close that does
      not fail on an empty buffer (see Writer.Flush0Corrected) instead of the
      close as written. */
  method Upload(t: Table, md5: seq<JByte> -> string, src: LocalFile, now: int, corrected: bool)
    returns (r: Result<string>)
    modifies t
    ensures Uploaded(t.failing, md5, src.name, src.content, now, corrected, old(t.rows), old(t.calls), t.rows, r)
  {
    if src.content.None? {
      // md5Hex opens the file: FileNotFoundException
      return Err(IOFault);
    }
    var content := src.content.value;
    var id := md5(content);
    var f :- BuildHBaseFile(t, id, Some(src.name), now);
    if f.Integrity() {
      return Ok(id);
    }
    var d := Delete(t, f);
    if d.Fail? {
      return Err(d.fault);
    }
    var g :- BuildHBaseFile(t, id, Some(src.name), now);
    var o := Rewrite(t, g, content, corrected);
    if o.Fail? {
      return Err(o.fault);
    }
    r := Ok(id);
  }

  /** The write half of upload: open a writer on `g`, copy every byte of
      `content` into it and close it. Opened on a new object of a healthy
      store, the close as written stores the content completely unless the
      buffer is empty (no bytes, or a multiple of CACHE_SIZE), where it fails
      with the shards stored but the object left TRANSIT. */
  method Rewrite(t: Table, g: HBaseFile, content: seq<JByte>, corrected: bool) returns (o: Outcome)
    modifies t
    ensures g.IsNew() && g.shards == 0 && g.size == 0 && g.desc.Some? && g.identifier !in old(t.rows) && t.Healthy() ==>
      && (corrected || |content| % CACHE_SIZE != 0 ==>
            o == Pass && t.rows == old(t.rows)[g.identifier := CompleteRow(g, content)])
      && (!corrected && |content| % CACHE_SIZE == 0 ==>
            && o == Fail(NullPointer)
            && (content == [] ==> t.rows == old(t.rows))
            && (content != [] ==> g.identifier in t.rows && t.rows[g.identifier].status == Some(TRANSIT)
                                  && StoredContent(t.rows, g.identifier) == content))
    // on any store, NullPointerException comes only from the close as written with an empty buffer
    ensures g.desc.Some? && o == Fail(NullPointer) ==> !corrected && |content| % CACHE_SIZE == 0
  {
    var w := new Writer(t, g);
    WriteAll(w, content);
    if corrected {
      o := w.Flush0Corrected();
    } else {
      LayoutSize(w.needFlushShardList, w.Pending(), w.size, w.written);
      assert w.cache == null <==> |content| % CACHE_SIZE == 0;
      o := w.Flush0();
      if o.Fail? && w.newObject && content != [] {
        FullShardsStream(w.needFlushShardList);
      }
    }
  }

  /** IOUtils.copy from the local file into the writer: every byte, in order. */
  method WriteAll(w: Writer, content: seq<JByte>)
    requires w.Valid() && w.Synced() && w.written == [] && !w.finalized && w.cache == null
    modifies w`cache, w`cursor, w`size, w`written, w`needFlushShardList,
      w`startShardCursor, w`hbFile, w`stored, w.table
    ensures w.Valid() && w.Synced() && w.written == content
  {
    for i := 0 to |content|
      invariant w.Valid() && w.Synced() && w.written == content[..i]
      invariant w.cache != null ==> fresh(w.cache)
    {
      PrefixGrows(content, i);
      w.Write(content[i]);
    }
    assert content[..|content|] == content;
  }

  lemma PrefixGrows(s: seq<JByte>, i: int)
    requires 0 <= i < |s|
    ensures s[..i + 1] == s[..i] + [s[i]]
  {
  }

  /** download(identifier, localFile): refuse an object that is not complete
      before touching the destination; otherwise delete the destination,
      create it empty and copy the reader's bytes into it until the end of
      the stream. */
  method Download(t: Table, id: string, now: int, dest: LocalFile) returns (o: Outcome)
    modifies t`calls, dest
    ensures old(t.calls) in t.failing ==> o == Fail(IOFault) && dest.content == old(dest.content)
    ensures !IsComplete(t.rows, id, None, now) ==> o.Fail? && dest.content == old(dest.content)
    ensures o == Pass ==> IsComplete(t.rows, id, None, now) && dest.content == Some(StoredContent(t.rows, id))
    ensures t.Healthy() && IsComplete(t.rows, id, None, now) ==> o == Pass
    // a failure after the gate leaves a truncated copy behind
    ensures o.Fail? && dest.content != old(dest.content) ==>
      o == Fail(IOFault) && dest.content.Some? && dest.content.value <= StoredContent(t.rows, id)
  {
    var r := BuildHBaseFile(t, id, None, now);
    if r.Err? {
      return Fail(r.fault);
    }
    var f := r.value;
    if !f.Integrity() {
      return Fail(IOFault);
    }
    var reader := new Reader(t, f);
    assert reader.Remaining() == StoredContent(t.rows, id);
    dest.content := None;
    dest.content := Some([]);
    o := Copy(reader, dest);
  }

  /** IOUtils.copy from a fresh reader into an empty destination: append each
      byte read until the end of the stream; an IOException stops the copy. */
  method Copy(reader: Reader, dest: LocalFile) returns (o: Outcome)
    requires reader.Valid() && reader.cache.None? && dest.content == Some([])
    modifies reader`shard, reader`cache, reader`cursor, reader`requested, reader.table`calls, dest
    ensures o == Pass ==> dest.content == Some(old(reader.Remaining()))
    ensures o.Fail? ==> o == Fail(IOFault) && dest.content.Some? && dest.content.value <= old(reader.Remaining())
    ensures reader.table.Healthy() ==> o == Pass
  {
    ghost var stream := reader.Remaining();
    var copied: seq<JByte> := [];
    while true
      invariant reader.Valid() && reader.cache != Some([])
      invariant copied + reader.Remaining() == stream
      invariant dest.content == Some(copied)
      decreases |reader.Remaining()|
    {
      ghost var before := reader.Remaining();
      var b := reader.Read();
      if b.Err? {
        return Fail(b.fault);
      }
      if b.value == EOF {
        assert before == [];
        assert copied == stream;
        break;
      }
      ghost var rest := reader.Remaining();
      assert before != [] && rest == before[1..];
      assert ToByte(b.value) == before[0];
      CopyStep(copied, before, stream);
      copied := copied + [ToByte(b.value)];
      dest.content := Some(copied);
    }
    assert dest.content == Some(stream);
    o := Pass;
  }

  /** Moving the head of what is left to what is copied keeps their
      concatenation. */
  lemma CopyStep(copied: seq<JByte>, left: seq<JByte>, stream: seq<JByte>)
    requires copied + left == stream && left != []
    ensures (copied + [left[0]]) + left[1..] == stream
  {
    assert left == [left[0]] + left[1..];
  }

  /** The value a batch upload's future yields for one file: the identifier,
      null when the upload threw IOException, or the escaping exception. */
  datatype UploadResult = Done(id: string) | NullId | Crashed(fault: Fault)

  /** UploadRunnable.call: an IOException is logged and the identifier field,
      still null, is returned; any other exception escapes to the future. */
  function AsFuture(r: Result<string>): (u: UploadResult)
    ensures u.Done? <==> r.Ok?
    ensures u.Done? ==> u.id == r.value
    ensures u == NullId <==> r == Err(IOFault)
    ensures u.Crashed? ==> r == Err(u.fault) && u.fault != IOFault
  {
    match r
    case Ok(id) => Done(id)
    case Err(IOFault) => NullId
    case Err(fault) => Crashed(fault)
  }

  /** upload(Collection<File>): one result per file, in iteration order. */
  method UploadAll(t: Table, md5: seq<JByte> -> string, files: seq<LocalFile>, now: int, corrected: bool)
    returns (results: seq<UploadResult>, ghost outcomes: seq<Result<string>>,
             ghost rowsAt: seq<map<string, Row>>, ghost callsAt: seq<nat>)
    modifies t
    ensures |results| == |files| && |outcomes| == |files|
    // the i-th future yields what upload of the i-th file returned or threw
    ensures forall i | 0 <= i < |files| :: results[i] == AsFuture(outcomes[i])
    ensures forall i | 0 <= i < |files| :: outcomes[i].Ok? ==>
      files[i].content.Some? && outcomes[i].value == md5(files[i].content.value)
    ensures forall i | 0 <= i < |files| :: files[i].content.None? ==> outcomes[i] == Err(IOFault)
    ensures forall i | 0 <= i < |files| :: results[i].Done? ==>
      files[i].content.Some? && results[i].id == md5(files[i].content.value)
    ensures forall i | 0 <= i < |files| :: files[i].content.None? ==> results[i] == NullId
    // the uploads run one after another, each from the state the previous one left
    ensures |rowsAt| == |files| + 1 && |callsAt| == |files| + 1
    ensures rowsAt[0] == old(t.rows) && callsAt[0] == old(t.calls)
    ensures rowsAt[|files|] == t.rows && callsAt[|files|] == t.calls
    ensures forall i | 0 <= i < |files| ::
      Uploaded(t.failing, md5, files[i].name, files[i].content, now, corrected,
               rowsAt[i], callsAt[i], rowsAt[i + 1], outcomes[i])
    // on a healthy store with well-formed rows, every existing file is uploaded
    ensures t.Healthy() && corrected && WellFormed(old(t.rows)) ==>
      WellFormed(t.rows) &&
      forall i | 0 <= i < |files| :: files[i].content.Some? ==> results[i] == Done(md5(files[i].content.value))
  {
    results, outcomes := [], [];
    rowsAt, callsAt := [t.rows], [t.calls];
    for i := 0 to |files|
      invariant |results| == i && |outcomes| == i
      invariant forall j | 0 <= j < i :: results[j] == AsFuture(outcomes[j])
      invariant forall j | 0 <= j < i :: outcomes[j].Ok? ==>
        files[j].content.Some? && outcomes[j].value == md5(files[j].content.value)
      invariant forall j | 0 <= j < i :: files[j].content.None? ==> outcomes[j] == Err(IOFault)
      invariant forall j | 0 <= j < i :: results[j].Done? ==>
        files[j].content.Some? && results[j].id == md5(files[j].content.value)
      invariant forall j | 0 <= j < i :: files[j].content.None? ==> results[j] == NullId
      invariant |rowsAt| == i + 1 && |callsAt| == i + 1
      invariant rowsAt[0] == old(t.rows) && callsAt[0] == old(t.calls)
      invariant rowsAt[i] == t.rows && callsAt[i] == t.calls
      invariant forall j | 0 <= j < i ::
        Uploaded(t.failing, md5, files[j].name, files[j].content, now, corrected,
                 rowsAt[j], callsAt[j], rowsAt[j + 1], outcomes[j])
      invariant t.Healthy() && corrected && WellFormed(old(t.rows)) ==>
        WellFormed(t.rows) &&
        forall j | 0 <= j < i :: files[j].content.Some? ==> results[j] == Done(md5(files[j].content.value))
    {
      ghost var before := t.rows;
      var r := Upload(t, md5, files[i], now, corrected);
      if t.Healthy() && corrected && WellFormed(old(t.rows)) && files[i].content.Some? {
        UploadedHealthy(md5, files[i].name, files[i].content.value, now, before, callsAt[i], t.rows, r);
      }
      results := results + [AsFuture(r)];
      outcomes := outcomes + [r];
      rowsAt, callsAt := rowsAt + [t.rows], callsAt + [t.calls];
    }
  }
}
