// Shared vocabulary of the chunked-object layer: Java bytes, the object handle
// (HBaseFile), the three-state status, a row of the file-system table and the
// table itself as an abstract, fault-injectable key-value store.

module HBaseFileModel {

  /** A Java `byte`: a signed 8-bit value. */
  type JByte = x: int | -128 <= x < 128

  /** Java's narrowing cast `(byte) b`: keeps the low eight bits, read as signed. */
  function ToByte(b: int): (r: JByte)
    ensures (b - r) % 256 == 0
    ensures -128 <= b < 128 ==> r == b
  {
    var m := b % 256;
    if m >= 128 then m - 256 else m
  }

  /** Java's `b & 0xff` on a byte widened to int: the unsigned reading of the byte. */
  function Unsigned(b: JByte): (r: int)
    ensures 0 <= r < 256
    ensures ToByte(r) == b
    ensures b >= 0 ==> r == b
  {
    if b < 0 then b + 256 else b
  }

  datatype Option<T> = None | Some(value: T)

  /** The two kinds of exception the core lets escape: a backend IOException and
      a NullPointerException raised by the core's own code. */
  datatype Fault = IOFault | NullPointer

  datatype Result<T> = Ok(value: T) | Err(fault: Fault) {
    predicate IsFailure() { Err? }
    function PropagateFailure<U>(): Result<U>
      requires Err?
    {
      Err(fault)
    }
    function Extract(): T
      requires Ok?
    {
      value
    }
  }

  /** Completion of a void Java method: normal return or an escaping exception. */
  datatype Outcome = Pass | Fail(fault: Fault)

  /** Lifecycle of a stored object: NEW (no shard yet), TRANSIT (shards being
      written), INTEGRITY (complete). Stored as one status byte 0, 1, 2. */
  datatype Status = NEW | TRANSIT | INTEGRITY

  /** The in-memory handle of one stored object. `desc` is None when the Java
      field is null (a handle built from an identifier alone). */
  datatype HBaseFile = HBaseFile(
    identifier: string,
    desc: Option<string>,
    size: int,
    shards: int,
    status: Status,
    createTime: int)
  {
    predicate IsNew() { status == NEW }
    predicate IsTransit() { status == TRANSIT }
    predicate Integrity() { status == INTEGRITY }
  }

  /** A freshly constructed handle: zero size, shard counter 0. */
  function NewHandle(id: string, desc: Option<string>, now: int): (f: HBaseFile)
    ensures f.identifier == id && f.desc == desc && f.createTime == now
    ensures f.size == 0 && f.shards == 0 && f.IsNew()
  {
    HBaseFile(id, desc, 0, 0, NEW, now)
  }

  /** One row of the file-system table: the five cells of the metadata column
      family (each may be absent) and the shard column family, shard index to
      payload. */
  datatype Row = Row(
    desc: Option<string>,
    size: Option<int>,
    shards: Option<int>,
    status: Option<Status>,
    createTime: Option<int>,
    data: map<int, seq<JByte>>)

  const EmptyRow: Row := Row(None, None, None, None, None, map[])

  /** A Get restricted to the metadata family returns a non-empty Result. */
  predicate HasMeta(r: Row)
  {
    r.desc.Some? || r.size.Some? || r.shards.Some? || r.status.Some? || r.createTime.Some?
  }

  /** Every metadata cell is present. */
  predicate CompleteMeta(r: Row)
  {
    r.desc.Some? && r.size.Some? && r.shards.Some? && r.status.Some? && r.createTime.Some?
  }

  /** The row stored under `id`; a missing row has no cells. */
  function RowOf(rows: map<string, Row>, id: string): Row
  {
    if id in rows then rows[id] else EmptyRow
  }

  /** Every row that has metadata has all five metadata cells. */
  predicate WellFormed(rows: map<string, Row>)
  {
    forall id | id in rows :: HasMeta(rows[id]) ==> CompleteMeta(rows[id])
  }

  /** None of the backend calls numbered `from` up to, not including, `to`
      throws. */
  ghost predicate NoFailure(failing: set<nat>, from: nat, to: nat)
  {
    forall c | from <= c < to :: c !in failing
  }

  /** How a step that made backend calls `from` up to `to` ends: it passes
      only when none of them threw; an IOException is thrown by the last call
      made, every earlier one having succeeded; a NullPointerException is
      raised before any call has failed. */
  ghost predicate Propagates(failing: set<nat>, from: nat, to: nat, o: Outcome)
  {
    && from <= to
    && (o == Pass ==> NoFailure(failing, from, to))
    && (o == Fail(IOFault) ==> from < to && to - 1 in failing && NoFailure(failing, from, to - 1))
    && (o == Fail(NullPointer) ==> NoFailure(failing, from, to))
  }

  /** A step that passed followed by one that propagates its failure
      propagates it from the start of the first. */
  lemma PropagatesChain(failing: set<nat>, from: nat, mid: nat, to: nat, o: Outcome)
    requires Propagates(failing, from, mid, Pass) && Propagates(failing, mid, to, o)
    ensures Propagates(failing, from, to, o)
  {
  }

  /** The file-system table. Every backend call is numbered; call number n
      throws IOException exactly when n is in `failing`. */
  class Table {
    var rows: map<string, Row>
    const failing: set<nat>
    var calls: nat

    constructor (initial: map<string, Row>, faults: set<nat>)
      ensures rows == initial && failing == faults && calls == 0
    {
      rows := initial;
      failing := faults;
      calls := 0;
    }

    /** No backend call ever fails. */
    predicate Healthy()
    {
      failing == {}
    }

    /** One round trip to the backend; false when it throws IOException. */
    method Call() returns (ok: bool)
      modifies this`calls
      ensures calls == old(calls) + 1
      ensures ok <==> old(calls) !in failing
      ensures Healthy() ==> ok
    {
      ok := calls !in failing;
      calls := calls + 1;
    }
  }
}
