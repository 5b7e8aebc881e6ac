/** Properties of the producer across calls: what a successful start stages,
    the invariant every delivery keeps, first-in first-out delivery, and that
    a restart from the committed checkpoint rebuilds the live producer. */
module ProducerProperties {

  import opened Wrappers
  import opened JavaInt
  import opened JsonlProducer

  /** Every key other than the offset key is bound alike in both stores. */
  ghost predicate SameOtherKeys(a: Store, b: Store) {
    forall key :: key != OffsetKey ==>
      (key in a <==> key in b) && (key in a ==> a[key] == b[key])
  }

  /** A started producer whose store commits exactly its counter and whose
      queue holds the decodes of the lines after the counter. Together these
      give `offset + |queue| == n`, the number of lines in the file. */
  ghost predicate Resumable<R>(p: Producer<R>, decode: string -> Option<R>) {
    && p.started
    && p.file.Lines?
    && 0 <= p.offset <= |p.file.lines|
    && StoredOffset(p.store) == Success(p.offset)
    && Decodes(decode, p.file.lines[p.offset..], p.queue)
  }

  /** What `m` successive doReceive calls produce: the records handed out,
      oldest first, and the producer left behind. */
  datatype Polled<R> = Polled(records: seq<R>, last: Producer<R>)

  /** A consumer calling doReceive `m` times in a row. */
  function Poll<R>(p: Producer<R>, m: nat): Polled<R>
    decreases m
  {
    if m == 0 then Polled([], p)
    else match Receive(p)
      case Failure(_) => Polled([], p)
      case Success(d) =>
        var rest := Poll(d.next, m - 1);
        Polled(if d.record.Some? then [d.record.value] + rest.records else rest.records, rest.last)
  }

  /** doReceive writes only the offset key: every other key of the store is
      bound as before. */
  lemma ReceiveTouchesOnlyOffsetKey<R>(p: Producer<R>)
    requires p.started
    ensures SameOtherKeys(p.store, Receive(p).value.next.store)
  {
  }

  /** Two decodes of the same lines are the same records. */
  lemma DecodesUnique<R>(decode: string -> Option<R>, lines: seq<string>, a: seq<R>, b: seq<R>)
    requires Decodes(decode, lines, a) && Decodes(decode, lines, b)
    ensures a == b
  {
    forall i | 0 <= i < |a|
      ensures a[i] == b[i]
    {
      assert Some(a[i]) == decode(lines[i]) == Some(b[i]);
    }
  }

  /** After a successful start with recovered count `k`, the queue is what it
      held before followed by the decodes of the lines from ResumeLine(k, n)
      on, in file order; nothing is added when `k` reaches the end. */
  lemma CatchUpContents<R>(p: Producer<R>, decode: string -> Option<R>)
    requires OnInit(p, decode).failure.None?
    ensures p.file.Lines? && StoredOffset(p.store).Success?
    ensures Staged(decode, p.queue,
                   p.file.lines[ResumeLine(StoredOffset(p.store).value, |p.file.lines|)..],
                   OnInit(p, decode).producer.queue)
    ensures StoredOffset(p.store).value >= |p.file.lines| ==> OnInit(p, decode).producer.queue == p.queue
  {
    var lines := p.file.lines;
    var k := StoredOffset(p.store).value;
    var c := CatchUpFrom(lines, k, decode);
    var q := OnInit(p, decode).producer.queue;
    assert q == p.queue + c.records;
    assert q[..|p.queue|] == p.queue;
    assert q[|p.queue|..] == c.records;
  }

  /** A line the decoder rejects fails the whole start: the failure names
      the first rejected line after the skipped ones, and the queue keeps the
      records decoded before it, which the caller never sees as a success. */
  lemma DecodeFailureAborts<R>(p: Producer<R>, decode: string -> Option<R>)
    requires OnInit(p, decode).failure.Some?
    requires OnInit(p, decode).failure.value.DecodeFailed?
    ensures p.file.Lines? && StoredOffset(p.store).Success?
    ensures
      var lines := p.file.lines;
      var first := ResumeLine(StoredOffset(p.store).value, |lines|);
      var j := OnInit(p, decode).failure.value.line;
      && first <= j < |lines|
      && decode(lines[j]).None?
      && (forall i :: first <= i < j ==> decode(lines[i]).Some?)
      && Staged(decode, p.queue, lines[first..j], OnInit(p, decode).producer.queue)
  {
    var lines := p.file.lines;
    var k := StoredOffset(p.store).value;
    var first := ResumeLine(k, |lines|);
    var c := CatchUpFrom(lines, k, decode);
    var j := c.failedAt.value;
    var q := OnInit(p, decode).producer.queue;
    assert q == p.queue + c.records;
    assert q[..|p.queue|] == p.queue;
    assert q[|p.queue|..] == c.records;
    forall i | first <= i < j
      ensures decode(lines[i]).Some?
    {
      assert lines[i] == lines[first..j][i - first];
    }
  }

  /** The converse: once the count parses and the file opens, a line at or
      after the resume line that the decoder rejects always fails the start
      with DecodeFailed, naming the first such line. */
  lemma RejectedLineReportsDecodeFailed<R>(p: Producer<R>, decode: string -> Option<R>, bad: nat)
    requires StoredOffset(p.store).Success? && p.file.Lines?
    requires ResumeLine(StoredOffset(p.store).value, |p.file.lines|) <= bad < |p.file.lines|
    requires decode(p.file.lines[bad]).None?
    ensures OnInit(p, decode).failure.Some? && OnInit(p, decode).failure.value.DecodeFailed?
    ensures
      var lines := p.file.lines;
      var j := OnInit(p, decode).failure.value.line;
      && ResumeLine(StoredOffset(p.store).value, |lines|) <= j <= bad
      && decode(lines[j]).None?
      && (forall i :: ResumeLine(StoredOffset(p.store).value, |lines|) <= i < j ==> decode(lines[i]).Some?)
  {
    var lines := p.file.lines;
    var first := ResumeLine(StoredOffset(p.store).value, |lines|);
    assert OnInit(p, decode).failure != Some(FileUnreadable);
    assert OnInit(p, decode).failure.Some?;
    DecodeFailureAborts(p, decode);
  }

  /** A producer constructed without a store recovers no count: it starts at
      line 0 and, when every line decodes, stages the whole file. */
  lemma NoStoreStartsAtLineZero<R>(lines: seq<string>, decode: string -> Option<R>)
    ensures var p := New<R>(None, Some(Lines(lines))).value;
      && OnInit(p, decode).producer.offset == 0
      && (OnInit(p, decode).failure.None? <==> forall i :: 0 <= i < |lines| ==> decode(lines[i]).Some?)
      && (OnInit(p, decode).failure.None? ==> Decodes(decode, lines, OnInit(p, decode).producer.queue))
  {
    var p := New<R>(None, Some(Lines(lines))).value;
    if OnInit(p, decode).failure.None? {
      CatchUpContents(p, decode);
      assert lines[0..] == lines;
    }
  }

  /** Starting a new producer whose committed count `k` lies within the
      file establishes the invariant, so `offset + |queue| == n`. */
  lemma InitEstablishesResumable<R>(p: Producer<R>, decode: string -> Option<R>)
    requires p.queue == []
    requires OnInit(p, decode).failure.None?
    requires p.file.Lines? && StoredOffset(p.store).Success?
    requires 0 <= StoredOffset(p.store).value <= |p.file.lines|
    ensures Resumable(OnInit(p, decode).producer, decode)
    ensures OnInit(p, decode).producer.offset + |OnInit(p, decode).producer.queue| == |p.file.lines|
  {
    CatchUpContents(p, decode);
    var q := OnInit(p, decode).producer.queue;
    assert q[|p.queue|..] == q;
  }

  /** One doReceive keeps the invariant and conserves `offset + |queue|`: it
      hands out the head, advances the counter by exactly one and commits a
      value that reads back as the new counter. */
  lemma ReceivePreservesResumable<R>(p: Producer<R>, decode: string -> Option<R>)
    requires Resumable(p, decode)
    requires |p.file.lines| <= MaxInt32
    ensures Receive(p).Success?
    ensures Resumable(Receive(p).value.next, decode)
    ensures Receive(p).value.next.offset + |Receive(p).value.next.queue| == p.offset + |p.queue|
    ensures p.queue != [] ==>
      && Receive(p).value.record == Some(p.queue[0])
      && Receive(p).value.next.offset == p.offset + 1
  {
    if p.queue != [] {
      var q := Receive(p).value.next;
      ParseIntOfIntToString(q.offset);
      assert q.file.lines[q.offset..] == p.file.lines[p.offset..][1..];
    }
  }

  /** Once the queue is drained, every further doReceive yields nothing and
      changes nothing, however often it is called. */
  lemma {:induction false} PollExhausted<R>(p: Producer<R>, m: nat)
    requires p.started && p.queue == []
    ensures Poll(p, m) == Polled([], p)
    decreases m
  {
    if m > 0 {
      PollExhausted(p, m - 1);
    }
  }

  /** One doReceive on a non-empty queue, then the remaining calls. */
  lemma PollStep<R>(p: Producer<R>, m: nat)
    requires p.started && p.queue != [] && 0 < m
    ensures Poll(p, m).records == [p.queue[0]] + Poll(Receive(p).value.next, m - 1).records
    ensures Poll(p, m).last == Poll(Receive(p).value.next, m - 1).last
  {
  }

  /** `m` calls to doReceive on a started producer hand out the first `m`
      queued records in queue order, or all of them when fewer are queued
      (after which every further call yields nothing). */
  lemma {:induction false} PollDeliversInOrder<R>(p: Producer<R>, m: nat)
    requires p.started
    ensures Poll(p, m).records == p.queue[..if m <= |p.queue| then m else |p.queue|]
    decreases m
  {
    if p.queue == [] {
      PollExhausted(p, m);
    } else if m > 0 {
      var next := Receive(p).value.next;
      PollStep(p, m);
      PollDeliversInOrder(next, m - 1);
      var d := if m <= |p.queue| then m else |p.queue|;
      assert p.queue[..d] == [p.queue[0]] + next.queue[..d - 1];
    }
  }

  /** After `m` calls to doReceive the records not handed out are still
      queued, in order, and the producer is still started over the same file. */
  lemma {:induction false} PollLeavesRest<R>(p: Producer<R>, m: nat)
    requires p.started
    ensures Poll(p, m).last.queue == p.queue[if m <= |p.queue| then m else |p.queue|..]
    ensures Poll(p, m).last.started && Poll(p, m).last.file == p.file
    decreases m
  {
    if p.queue == [] {
      PollExhausted(p, m);
    } else if m > 0 {
      var next := Receive(p).value.next;
      PollStep(p, m);
      PollLeavesRest(next, m - 1);
      var d := if m <= |p.queue| then m else |p.queue|;
      assert p.queue[d..] == next.queue[d - 1..];
    }
  }

  /** The counter advances by exactly the number of records handed out, as
      long as it stays within the range of an `int`. */
  lemma {:induction false} PollAdvancesCounter<R>(p: Producer<R>, m: nat)
    requires p.started
    requires p.offset + |p.queue| <= MaxInt32
    ensures Poll(p, m).last.offset == p.offset + if m <= |p.queue| then m else |p.queue|
    decreases m
  {
    if p.queue == [] {
      PollExhausted(p, m);
    } else if m > 0 {
      PollAdvancesCounter(Receive(p).value.next, m - 1);
    }
  }

  /** Deliveries commit only under the offset key: after at least one record
      was handed out the key holds the decimal text of the counter, and every
      other key is bound as before. */
  lemma {:induction false} PollCommitsOffsetOnly<R>(p: Producer<R>, m: nat)
    requires p.started
    ensures SameOtherKeys(p.store, Poll(p, m).last.store)
    ensures Poll(p, m).records == [] ==> Poll(p, m).last == p
    ensures Poll(p, m).records != [] ==>
      OffsetKey in Poll(p, m).last.store && Poll(p, m).last.store[OffsetKey] == IntToString(Poll(p, m).last.offset)
    decreases m
  {
    if m > 0 {
      ReceiveTouchesOnlyOffsetKey(p);
      var next := Receive(p).value.next;
      PollCommitsOffsetOnly(next, m - 1);
    }
  }

  /** Any number of deliveries keeps the invariant. */
  lemma PollPreservesResumable<R>(p: Producer<R>, decode: string -> Option<R>, m: nat)
    requires Resumable(p, decode)
    requires |p.file.lines| <= MaxInt32
    ensures Resumable(Poll(p, m).last, decode)
  {
    PollLeavesRest(p, m);
    PollAdvancesCounter(p, m);
    PollCommitsOffsetOnly(p, m);
    var q := Poll(p, m).last;
    if q != p {
      ParseIntOfIntToString(q.offset);
      assert q.file.lines[q.offset..] == p.file.lines[p.offset..][q.offset - p.offset..];
    }
  }

  /** Restarting from the committed checkpoint rebuilds the live producer:
      a new producer over the same file and store, once initialised, has the
      same counter and the same queue, so it resumes at the first line not
      yet committed. */
  lemma RestartReproducesState<R>(p: Producer<R>, decode: string -> Option<R>)
    requires Resumable(p, decode)
    ensures New<R>(Some(p.store), Some(p.file)).Success?
    ensures OnInit(New<R>(Some(p.store), Some(p.file)).value, decode) == Init(p, None)
  {
    var reopened := New<R>(Some(p.store), Some(p.file)).value;
    var lines := p.file.lines;
    assert ResumeLine(p.offset, |lines|) == p.offset;
    forall i | p.offset <= i < |lines|
      ensures decode(lines[i]).Some?
    {
      assert lines[i] == lines[p.offset..][i - p.offset];
    }
    CatchUpContents(reopened, decode);
    var q := OnInit(reopened, decode).producer.queue;
    assert q[|reopened.queue|..] == q;
    DecodesUnique(decode, lines[p.offset..], q, p.queue);
  }

  /** A crash between doReceive's poll of the queue and its write to the
      store loses nothing: the record was taken from the queue but not yet
      returned to anyone, and a restart from the store as it was delivers
      that same record first. */
  lemma CrashBeforeCommitLosesNothing<R>(p: Producer<R>, decode: string -> Option<R>)
    requires Resumable(p, decode)
    requires p.queue != []
    ensures
      var restarted := OnInit(New<R>(Some(p.store), Some(p.file)).value, decode).producer;
      && Receive(p).Success? && Receive(restarted).Success?
      && Receive(restarted).value.record == Receive(p).value.record == Some(p.queue[0])
  {
    RestartReproducesState(p, decode);
  }

  /** doReceive writes the checkpoint before it returns the record, so once
      a poll has returned, a restart from the store it left does not queue
      that record again: if the consumer then fails to process it, the
      record is not delivered a second time. */
  lemma CommitPrecedesHandOff<R>(p: Producer<R>, decode: string -> Option<R>)
    requires Resumable(p, decode)
    requires |p.file.lines| <= MaxInt32
    requires p.queue != []
    ensures
      var next := Receive(p).value.next;
      var restarted := OnInit(New<R>(Some(next.store), Some(p.file)).value, decode);
      && Receive(p).value.record == Some(p.queue[0])
      && restarted.failure.None?
      && restarted.producer.queue == p.queue[1..]
  {
    ReceivePreservesResumable(p, decode);
    RestartReproducesState(Receive(p).value.next, decode);
  }

  /** The first `d` records of a decode are the decode of the first `d` lines. */
  lemma DecodesPrefix<R>(decode: string -> Option<R>, lines: seq<string>, records: seq<R>, d: nat)
    requires Decodes(decode, lines, records)
    requires d <= |lines|
    ensures Decodes(decode, lines[..d], records[..d])
  {
  }

  /** From any producer that keeps the invariant, `m` deliveries hand out
      the decodes of the next `d` lines in file order, `d` being `m` or what
      is left, and the counter moves past exactly those lines. */
  lemma PollDeliversNextLines<R>(p: Producer<R>, decode: string -> Option<R>, m: nat)
    requires Resumable(p, decode)
    requires |p.file.lines| <= MaxInt32
    ensures
      var k := p.offset as int;
      var lines := p.file.lines;
      var d := if k + m <= |lines| then m else |lines| - k;
      && Decodes(decode, lines[k..k + d], Poll(p, m).records)
      && Poll(p, m).last.offset == k + d
  {
    var k := p.offset as int;
    var lines := p.file.lines;
    PollDeliversInOrder(p, m);
    PollAdvancesCounter(p, m);
    var d := if k + m <= |lines| then m else |lines| - k;
    DecodesPrefix(decode, lines[k..], p.queue, d);
    assert lines[k..][..d] == lines[k..k + d];
  }

  /** From any producer that keeps the invariant, a restart after any number
      of deliveries, from the store they left, rebuilds the producer they
      left: nothing committed is delivered again and nothing is skipped. */
  lemma DeliveriesThenRestart<R>(p: Producer<R>, decode: string -> Option<R>, m: nat)
    requires Resumable(p, decode)
    requires |p.file.lines| <= MaxInt32
    ensures
      var q := Poll(p, m).last;
      OnInit(New<R>(Some(q.store), Some(p.file)).value, decode) == Init(q, None)
  {
    PollLeavesRest(p, m);
    PollPreservesResumable(p, decode, m);
    RestartReproducesState(Poll(p, m).last, decode);
  }

  /** The whole life cycle: a new producer started from a committed count `k`
      with `0 <= k <= n` delivers, over `m` calls, the decodes of lines
      `k .. k+d` in file order (`d` records, at most what is left); the store
      then reads back `k + d`, and a restart resumes exactly there. */
  lemma ResumeAfterDeliveries<R>(store: Store, lines: seq<string>, decode: string -> Option<R>, m: nat)
    requires |lines| <= MaxInt32
    requires StoredOffset(store).Success? && 0 <= StoredOffset(store).value <= |lines|
    requires OnInit(New<R>(Some(store), Some(Lines(lines))).value, decode).failure.None?
    ensures
      var k := StoredOffset(store).value as int;
      var polled := Poll(OnInit(New<R>(Some(store), Some(Lines(lines))).value, decode).producer, m);
      var d := if k + m <= |lines| then m else |lines| - k;
      && Decodes(decode, lines[k..k + d], polled.records)
      && StoredOffset(polled.last.store) == Success(polled.last.offset)
      && polled.last.offset == k + d
      && OnInit(New<R>(Some(polled.last.store), Some(Lines(lines))).value, decode) == Init(polled.last, None)
  {
    var p := New<R>(Some(store), Some(Lines(lines))).value;
    InitEstablishesResumable(p, decode);
    var started := OnInit(p, decode).producer;
    PollDeliversNextLines(started, decode, m);
    PollPreservesResumable(started, decode, m);
    DeliveriesThenRestart(started, decode, m);
  }

  /** Conservation across a restart: the records handed out before it,
      followed by the records queued after it, are exactly the records the
      interrupted producer had queued, with no loss and no duplicate. */
  lemma DeliveredThenRequeuedIsQueue<R>(p: Producer<R>, decode: string -> Option<R>, m: nat)
    requires Resumable(p, decode)
    requires |p.file.lines| <= MaxInt32
    ensures
      var polled := Poll(p, m);
      var restarted := OnInit(New<R>(Some(polled.last.store), Some(p.file)).value, decode);
      restarted.failure.None? && polled.records + restarted.producer.queue == p.queue
  {
    PollDeliversInOrder(p, m);
    PollLeavesRest(p, m);
    DeliveriesThenRestart(p, decode, m);
    var d := if m <= |p.queue| then m else |p.queue|;
    assert p.queue[..d] + p.queue[d..] == p.queue;
  }
}
