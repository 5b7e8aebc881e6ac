/** JsonInboundMessageProducer: a checkpointed reader over a JSONL file.

    `OnInit` recovers the committed line count from the metadata store,
    replays that many readLine calls and decodes every remaining line into
    the staging queue; `Receive` (doReceive) hands out the head of the queue
    and commits the advanced count back to the store. The producer is an
    immutable value and each operation returns its successor. */
module JsonlProducer {

  import opened Wrappers
  import opened JavaInt
  import opened LineSource

  /** The metadata-store key holding the committed line count. */
  const OffsetKey: string := "offsetLine"

  /** The MetadataStore seen through its key/value contract. */
  type Store = map<string, string>

  /** The jsonlFile resource: either a file that cannot be opened for
      reading, or the lines it holds. */
  datatype JsonlFile = Unreadable | Lines(lines: seq<string>)

  /** The producer's fields; `R` is the decoded record type (JsonNode). */
  datatype Producer<R> = Producer(
    started: bool,
    offset: Int32,
    queue: seq<R>,
    store: Store,
    file: JsonlFile)

  datatype ConstructError = NullResource

  /** The causes onInit wraps in a RuntimeException. `DecodeFailed(j)`
      names the index of the first line the decoder rejected. */
  datatype InitError = MalformedOffset(text: string) | FileUnreadable | DecodeFailed(line: nat)

  datatype ReceiveError = NotStarted

  /** The producer after onInit, and the failure it raised, if any. A failed
      initialisation still leaves the fields it already changed behind. */
  datatype Init<R> = Init(producer: Producer<R>, failure: Option<InitError>)

  /** What doReceive returns (the record, or null as None) and the producer
      it leaves behind. */
  datatype Delivery<R> = Delivery(record: Option<R>, next: Producer<R>)

  /** The outcome of the streaming loop: the records decoded before it
      stopped, and the index of the line whose decoding threw, if any. */
  datatype CatchUp<R> = CatchUp(records: seq<R>, failedAt: Option<nat>)

  /** `records` are the decodes of `lines`, one for one and in order. */
  ghost predicate Decodes<R>(decode: string -> Option<R>, lines: seq<string>, records: seq<R>) {
    && |records| == |lines|
    && forall i :: 0 <= i < |lines| ==> decode(lines[i]) == Some(records[i])
  }

  /** `after` is `before` with the decodes of `lines` appended. */
  ghost predicate Staged<R>(decode: string -> Option<R>, before: seq<R>, lines: seq<string>, after: seq<R>) {
    && |before| <= |after|
    && after[..|before|] == before
    && Decodes(decode, lines, after[|before|..])
  }

  /** Index of the first line streamed after recovering the count `k` from
      a file of `n` lines: nothing is skipped for `k <= 0`, and at most the
      whole file is skipped. */
  function ResumeLine(k: int, n: nat): nat {
    if k <= 0 then 0 else if k <= n then k else n
  }

  /** The constructor: a null metadata store is replaced by an empty
      in-memory one, a null file is rejected. */
  function New<R>(store: Option<Store>, file: Option<JsonlFile>): (r: Result<Producer<R>, ConstructError>)
    ensures r.Failure? <==> file.None?
    ensures r.Success? ==> !r.value.started && r.value.offset == 0 && r.value.queue == []
    ensures r.Success? ==> file.Some? && r.value.file == file.value
    ensures r.Success? && store.Some? ==> r.value.store == store.value
    ensures r.Success? && store.None? ==> r.value.store == map[]
  {
    if file.None? then Failure(NullResource)
    else Success(Producer(false, 0, [], if store.Some? then store.value else map[], file.value))
  }

  /** The count start() recovers: 0 when the key is absent, otherwise the
      parsed stored text; text Integer.parseInt rejects is an error. */
  function StoredOffset(store: Store): (r: Result<Int32, InitError>)
    ensures OffsetKey !in store ==> r == Success(0)
    ensures OffsetKey in store && r.Success? ==> ParseInt(store[OffsetKey]) == Success(r.value)
    ensures OffsetKey in store && r.Failure? ==> ParseInt(store[OffsetKey]).Failure?
    ensures r.Failure? ==> OffsetKey in store && r.error == MalformedOffset(store[OffsetKey])
  {
    if OffsetKey !in store then Success(0)
    else match ParseInt(store[OffsetKey])
      case Success(v) => Success(v)
      case Failure(_) => Failure(MalformedOffset(store[OffsetKey]))
  }

  /** The streaming loop: while the file pointer is before the end, read a
      line (never null there) and decode it. Blank lines are decoded like any
      other; the first line the decoder rejects stops the loop. */
  function Stream<R>(reader: Reader, decode: string -> Option<R>): (r: CatchUp<R>)
    requires reader.pos <= |reader.lines|
    ensures r.failedAt.None? ==> Decodes(decode, reader.lines[reader.pos..], r.records)
    ensures r.failedAt.Some? ==>
      && reader.pos <= r.failedAt.value < |reader.lines|
      && decode(reader.lines[r.failedAt.value]).None?
      && Decodes(decode, reader.lines[reader.pos..r.failedAt.value], r.records)
    decreases |reader.lines| - reader.pos
  {
    if !HasMore(reader) then CatchUp([], None)
    else
      var (line, next) := ReadLine(reader);
      match decode(line.value)
      case None => CatchUp([], Some(reader.pos))
      case Some(node) =>
        var rest := Stream(next, decode);
        CatchUp([node] + rest.records, rest.failedAt)
  }

  /** start()'s two loops over the opened file: the do-while that replays
      `k` readLine calls when `k > 0`, then the streaming loop. Whatever `k`
      is, streaming begins at line ResumeLine(k, n); a count past the end of
      the file stages nothing and is not an error. */
  function CatchUpFrom<R>(lines: seq<string>, k: int, decode: string -> Option<R>): (r: CatchUp<R>)
    ensures r.failedAt.None? ==> Decodes(decode, lines[ResumeLine(k, |lines|)..], r.records)
    ensures r.failedAt.Some? ==>
      && ResumeLine(k, |lines|) <= r.failedAt.value < |lines|
      && decode(lines[r.failedAt.value]).None?
      && Decodes(decode, lines[ResumeLine(k, |lines|)..r.failedAt.value], r.records)
  {
    var reader := Skip(Open(lines), if k > 0 then k else 0);
    assert reader.pos == ResumeLine(k, |lines|);
    Stream(reader, decode)
  }

  /** onInit: set `started`, then run start(): recover the count, set the
      offset, open the file, skip the committed lines and stage the decodes
      of the rest. The store is only read here. */
  function OnInit<R>(p: Producer<R>, decode: string -> Option<R>): (r: Init<R>)
    ensures r.producer.started
    ensures r.producer.store == p.store && r.producer.file == p.file
    ensures StoredOffset(p.store).Failure? ==>
      && r.failure == Some(StoredOffset(p.store).error)
      && r.producer.offset == p.offset
      && r.producer.queue == p.queue
    ensures StoredOffset(p.store).Success? ==> r.producer.offset == StoredOffset(p.store).value
    ensures r.failure == Some(FileUnreadable) <==> StoredOffset(p.store).Success? && p.file.Unreadable?
    ensures r.failure == Some(FileUnreadable) ==> r.producer.queue == p.queue
    ensures r.failure.None? <==>
      && StoredOffset(p.store).Success?
      && p.file.Lines?
      && forall i :: ResumeLine(StoredOffset(p.store).value, |p.file.lines|) <= i < |p.file.lines| ==>
           decode(p.file.lines[i]).Some?
  {
    var p1 := p.(started := true);
    match StoredOffset(p1.store)
    case Failure(e) => Init(p1, Some(e))
    case Success(k) =>
      var p2 := p1.(offset := k);
      match p2.file
      case Unreadable => Init(p2, Some(FileUnreadable))
      case Lines(lines) =>
        var c := CatchUpFrom(lines, k, decode);
        var p3 := p2.(queue := p2.queue + c.records);
        match c.failedAt
        case None => Init(p3, None)
        case Some(j) => Init(p3, Some(DecodeFailed(j)))
  }

  /** doReceive: a producer that was never started fails its assertion. An
      empty queue yields null and changes nothing. Otherwise the head is
      removed and returned, the offset is incremented and its decimal text
      is written under the offset key, leaving the other keys alone. */
  function Receive<R>(p: Producer<R>): (r: Result<Delivery<R>, ReceiveError>)
    ensures r.Failure? <==> !p.started
    ensures r.Success? && p.queue == [] ==> r.value.record == None && r.value.next == p
    ensures r.Success? && p.queue != [] ==>
      var q := r.value.next;
      && r.value.record == Some(p.queue[0])
      && q.queue == p.queue[1..]
      && q.offset == Increment(p.offset)
      && OffsetKey in q.store && q.store[OffsetKey] == IntToString(q.offset)
      && q.started && q.file == p.file
  {
    if !p.started then Failure(NotStarted)
    else if p.queue == [] then Success(Delivery(None, p))
    else
      var n := Increment(p.offset);
      Success(Delivery(Some(p.queue[0]),
        p.(queue := p.queue[1..], offset := n, store := p.store[OffsetKey := IntToString(n)])))
  }
}
