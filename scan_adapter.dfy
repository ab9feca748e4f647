// Batched iteration over the metadata rows of the table
// (HBaseFileResultScanAdapter): each scanned result becomes an HBaseFile whose
// identifier is the row key and whose metadata is decoded by readMeta. The
// HBase ResultScanner is modelled as a sequence of results and a position.

module HBaseFileResultScanAdapter {
  import opened HBaseFileModel
  import opened HBaseAPIWrapper

  /** One scanned Result: the row key and the metadata cells of the row. */
  datatype ScanRow = ScanRow(key: string, row: Row)

  /** The scanner over the table's metadata family. Call n throws IOException
      exactly when n is in `failing`. An exhausted or closed scanner returns an
      empty batch, or null when `nullWhenExhausted` holds (the interface allows
      both). */
  class Scanner {
    const results: seq<ScanRow>
    const failing: set<nat>
    const nullWhenExhausted: bool
    var pos: int
    var closed: bool
    var calls: nat

    constructor (rs: seq<ScanRow>, faults: set<nat>, nullAtEnd: bool)
      ensures results == rs && failing == faults && nullWhenExhausted == nullAtEnd
      ensures pos == 0 && !closed && calls == 0
    {
      results := rs;
      failing := faults;
      nullWhenExhausted := nullAtEnd;
      pos := 0;
      closed := false;
      calls := 0;
    }

    /** The number of results a batch of at most `size` holds. */
    function BatchLength(size: int): (n: int)
      reads this`pos, this`closed
      requires 0 <= pos <= |results|
      ensures 0 <= n <= |results| - pos
      ensures n <= size || n == 0
      ensures !closed && 0 < size ==> (n == 0 <==> pos == |results|)
    {
      if closed || size <= 0 then 0
      else if size < |results| - pos then size
      else |results| - pos
    }

    /** next(int): the next batch of at most `size` results. */
    method Next(size: int) returns (r: Result<Option<seq<ScanRow>>>)
      requires 0 <= pos <= |results|
      modifies this`pos, this`calls
      ensures 0 <= pos <= |results| && calls == old(calls) + 1
      ensures old(calls) in failing ==> r == Err(IOFault) && pos == old(pos)
      ensures old(calls) !in failing ==> r.Ok? && pos == old(pos) + old(BatchLength(size))
      ensures r.Ok? && r.value.Some? ==> r.value.value == results[old(pos)..pos]
      ensures r.Ok? ==> (r.value.None? <==> nullWhenExhausted && old(BatchLength(size)) == 0)
      ensures r.Ok? && r.value.None? ==> pos == old(pos)
      ensures r.Ok? && pos == old(pos) && !nullWhenExhausted ==> r.value == Some([])
    {
      var ok := calls !in failing;
      calls := calls + 1;
      if !ok {
        return Err(IOFault);
      }
      var n := BatchLength(size);
      if n == 0 && nullWhenExhausted {
        return Ok(None);
      }
      var start := pos;
      pos := pos + n;
      r := Ok(Some(results[start..pos]));
    }

    method Close()
      modifies this`closed
      ensures closed
    {
      closed := true;
    }
  }

  /** adapterTo(Result): a handle named by the row key with the row's metadata
      decoded into it; a missing metadata cell is a NullPointerException. */
  function AdapterTo(r: ScanRow): (f: Result<HBaseFile>)
    ensures f.Ok? <==> r.row.size.Some? && r.row.shards.Some? && r.row.status.Some? && r.row.createTime.Some?
    ensures f.Err? ==> f.fault == NullPointer
    ensures f.Ok? ==> f.value.identifier == r.key && f.value.desc == r.row.desc
    ensures f.Ok? ==> Some(f.value.size) == r.row.size && Some(f.value.shards) == r.row.shards
    ensures f.Ok? ==> Some(f.value.status) == r.row.status && Some(f.value.createTime) == r.row.createTime
  {
    DecodeMeta(r.row, NewHandle(r.key, None, 0))
  }

  /** adapterTo(Result[]): one handle per result, in order; the first result
      that cannot be decoded aborts the batch. */
  function AdaptAll(rs: seq<ScanRow>): (fs: Result<seq<HBaseFile>>)
    ensures fs.Ok? <==> forall i {:trigger AdapterTo(rs[i])} | 0 <= i < |rs| :: AdapterTo(rs[i]).Ok?
    ensures fs.Ok? ==> |fs.value| == |rs| && forall i {:trigger fs.value[i]} | 0 <= i < |rs| :: fs.value[i] == AdapterTo(rs[i]).value
    ensures fs.Err? ==> fs.fault == NullPointer
  {
    if rs == [] then Ok([])
    else
      var head := AdapterTo(rs[0]);
      if head.Err? then Err(head.fault)
      else
        var tail := AdaptAll(rs[1..]);
        if tail.Err? then tail
        else Ok([head.value] + tail.value)
  }

  /** Batching does not change what is produced: adapting two consecutive
      batches gives the handles of adapting them as one. */
  lemma AdaptAllAppend(a: seq<ScanRow>, b: seq<ScanRow>)
    requires AdaptAll(a).Ok? && AdaptAll(b).Ok?
    ensures AdaptAll(a + b) == Ok(AdaptAll(a).value + AdaptAll(b).value)
  {
    var ab := a + b;
    assert AdaptAll(ab).Ok? by {
      forall i | 0 <= i < |ab| ensures AdapterTo(ab[i]).Ok? {
        if i < |a| {
          assert ab[i] == a[i];
        } else {
          assert ab[i] == b[i - |a|];
        }
      }
    }
    var fs, gs := AdaptAll(a).value, AdaptAll(b).value;
    assert AdaptAll(ab).value == fs + gs by {
      forall i | 0 <= i < |ab| ensures AdaptAll(ab).value[i] == (fs + gs)[i] {
        if i < |a| {
          assert ab[i] == a[i];
        } else {
          assert ab[i] == b[i - |a|];
        }
      }
    }
  }

  class ScanAdapter {
    const scanner: Scanner?

    constructor (s: Scanner?)
      ensures scanner == s
    {
      scanner := s;
    }

    /** next(size): the handles of the next batch. A null scanner, an exhausted
        scanner (null batch) or an IOException gives an empty list, and the
        last two close the scanner; a result missing a metadata cell escapes as
        NullPointerException. */
    method Next(size: int) returns (r: Result<seq<HBaseFile>>)
      requires scanner != null ==> 0 <= scanner.pos <= |scanner.results|
      modifies scanner
      ensures scanner == null ==> r == Ok([])
      ensures scanner != null ==> 0 <= scanner.pos <= |scanner.results|
      ensures scanner != null ==> scanner.calls == old(scanner.calls) + 1
      ensures scanner != null && old(scanner.calls) in scanner.failing ==>
        r == Ok([]) && scanner.closed && scanner.pos == old(scanner.pos)
      ensures scanner != null && old(scanner.calls) !in scanner.failing ==>
        && scanner.pos == old(scanner.pos) + old(scanner.BatchLength(size))
        && r == AdaptAll(scanner.results[old(scanner.pos)..scanner.pos])
      ensures scanner != null && scanner.pos == old(scanner.pos) && r.Ok? ==> r.value == []
      // the scanner is closed after an IOException or a null batch, and only then
      ensures scanner != null && old(scanner.calls) !in scanner.failing ==>
        (scanner.closed <==> old(scanner.closed) || (old(scanner.BatchLength(size)) == 0 && scanner.nullWhenExhausted))
      ensures r.Ok? ==> |r.value| <= size || r.value == []
      ensures r.Err? ==> r == Err(NullPointer)
    {
      if scanner == null {
        return Ok([]);
      }
      var batch := scanner.Next(size);
      if batch.Err? {
        scanner.Close();
        return Ok([]);
      }
      if batch.value.None? {
        scanner.Close();
        return Ok([]);
      }
      r := AdaptAll(batch.value.value);
    }

    /** nextOne(): the first handle of next(1), null when that list is empty. */
    method NextOne() returns (r: Result<Option<HBaseFile>>)
      requires scanner != null ==> 0 <= scanner.pos <= |scanner.results|
      modifies scanner
      ensures scanner != null ==> 0 <= scanner.pos <= |scanner.results|
      ensures scanner == null ==> r == Ok(None)
      ensures scanner != null && old(scanner.calls) !in scanner.failing ==>
        && scanner.pos == old(scanner.pos) + old(scanner.BatchLength(1))
        && (old(scanner.BatchLength(1)) == 0 ==> r == Ok(None))
        && (old(scanner.BatchLength(1)) == 1 ==>
              var row := scanner.results[old(scanner.pos)];
              r == if AdapterTo(row).Ok? then Ok(Some(AdapterTo(row).value)) else Err(NullPointer))
      ensures scanner != null && old(scanner.calls) in scanner.failing ==> r == Ok(None) && scanner.closed
    {
      var files :- Next(1);
      if files == [] {
        return Ok(None);
      }
      r := Ok(Some(files[0]));
    }

    /** close(): closing through a null scanner is a NullPointerException. */
    method Close() returns (o: Outcome)
      modifies scanner
      ensures scanner == null ==> o == Fail(NullPointer)
      ensures scanner != null ==> o == Pass && scanner.closed
    {
      if scanner == null {
        return Fail(NullPointer);
      }
      scanner.Close();
      o := Pass;
    }
  }
}
