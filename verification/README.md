# JSONL inbound message producer, modelled in Dafny

This project models the `JsonInboundMessageProducer` of the JSONL inbound
adapter. The producer is a polled message source over a file with one JSON
document per line. It counts how many records have been delivered and
commits that count to a metadata store under the key `offsetLine`. When it
starts, it reads the committed count back, skips that many lines, decodes
the remaining lines into an in-memory queue, and then hands out one queued
record per poll. Each delivery advances and commits the count before the
record is returned. For a store that persists every put, a restart
therefore resumes right after the last record a poll returned, and a
record that a poll returned but that its consumer never finished
processing is not delivered again after a restart.

The model is a set of pure functions over an immutable `Producer` value:

- `wrappers.dfy`: `Option` and `Result`.
- `java_int.dfy` (module `JavaInt`): Java's 32-bit `int`.
  - the wrap-around of `AtomicInteger.incrementAndGet`;
  - `String.valueOf(int)` as `IntToString`;
  - `Integer.parseInt` as `ParseInt`: an optional sign, at least one ASCII digit, and a range check.
- `line_source.dfy` (module `LineSource`): the file opened for reading, as its lines and a read position. `Skip` is the do-while that replays the committed count.
- `producer.dfy` (module `JsonlProducer`): the producer state and its operations.
  - state: `started`, the counter, the queue, the metadata store, the file;
  - operations: construction (`New`), `onInit`/`start` (`OnInit`), `doReceive` (`Receive`).
  - The JSON parser is the parameter `decode: string -> Option<R>`. `None` stands for a line the parser rejects.
- `properties.dfy` (module `ProducerProperties`): properties that relate several calls.
  - catch-up contents;
  - a decode failure aborts initialisation;
  - the resume invariant;
  - in-order delivery over many polls;
  - restart after deliveries;
  - what a restart delivers after a crash inside a poll, or after a poll returned.

Errors are values, not preconditions:

- a null file is `Failure(NullResource)`;
- an unparsable committed count is `MalformedOffset`;
- an unreadable file is `FileUnreadable`;
- a line the parser rejects is `DecodeFailed(line)`;
- polling a producer that was never initialised is `Failure(NotStarted)`, for the `Assert.state` guard.

## Model

| member | source | states |
|---|---|---|
| JavaInt.Increment | jsonl-inbound-adapter/src/main/java/com/example/jsonl_inbound_adapter/JsonlInboundAdapterApplication.java:162 | the new counter equals the old one plus one modulo 2^32, and is exactly one more below `Integer.MAX_VALUE` |
| JavaInt.IntToString | jsonl-inbound-adapter/src/main/java/com/example/jsonl_inbound_adapter/JsonlInboundAdapterApplication.java:163 | the text committed for a count; it has no contract of its own, and its meaning is stated by `JavaInt.IntToStringDenotes` and `JavaInt.ParseIntOfIntToString` |
| JavaInt.IntToStringDenotes | jsonl-inbound-adapter/src/main/java/com/example/jsonl_inbound_adapter/JsonlInboundAdapterApplication.java:163 | the committed text of a non-negative count is a non-empty run of decimal digits that denotes the count, with no leading zero unless the count is 0 |
| JavaInt.ParseIntAcceptsOnlyDecimal | jsonl-inbound-adapter/src/main/java/com/example/jsonl_inbound_adapter/JsonlInboundAdapterApplication.java:124 | any text the recovery parse accepts is an optional sign followed by at least one decimal digit, and its value's sign agrees with the sign character |
| JavaInt.ParseIntAcceptsDecimal | jsonl-inbound-adapter/src/main/java/com/example/jsonl_inbound_adapter/JsonlInboundAdapterApplication.java:124 | conversely, any optional sign followed by at least one decimal digit, leading zeros and a '+' included, is accepted exactly when its signed value fits in an `int`, and then parses to that value; otherwise it is rejected |
| JavaInt.ParseInt | jsonl-inbound-adapter/src/main/java/com/example/jsonl_inbound_adapter/JsonlInboundAdapterApplication.java:124 | a parsed value always lies in the 32-bit `int` range, and a rejected text is reported with that text; what it accepts is stated by `JavaInt.ParseIntAcceptsOnlyDecimal` and `JavaInt.ParseIntAcceptsDecimal`, and the round trip by `JavaInt.ParseIntOfIntToString` |
| JavaInt.ParseIntOfIntToString | jsonl-inbound-adapter/src/main/java/com/example/jsonl_inbound_adapter/JsonlInboundAdapterApplication.java:124 | parsing the text committed for any 32-bit count gives back that count |
| JavaInt.IntToStringInjective | jsonl-inbound-adapter/src/main/java/com/example/jsonl_inbound_adapter/JsonlInboundAdapterApplication.java:163 | different counts are committed as different texts |
| LineSource.Skip | jsonl-inbound-adapter/src/main/java/com/example/jsonl_inbound_adapter/JsonlInboundAdapterApplication.java:127-133 | replaying `count` reads moves the position forward by `count` lines, or to the end of the file if that comes first, and leaves the lines unchanged |
| LineSource.ReadLine | jsonl-inbound-adapter/src/main/java/com/example/jsonl_inbound_adapter/JsonlInboundAdapterApplication.java:130 | a read before the end yields the line at the read position and moves past it; a read at the end yields null and leaves the reader as it was; the lines never change |
| JsonlProducer.New | jsonl-inbound-adapter/src/main/java/com/example/jsonl_inbound_adapter/JsonlInboundAdapterApplication.java:112-120 | construction fails exactly when the file is null; otherwise the producer is not started, has counter 0 and an empty queue, and uses an empty store when none is given |
| JsonlProducer.StoredOffset | jsonl-inbound-adapter/src/main/java/com/example/jsonl_inbound_adapter/JsonlInboundAdapterApplication.java:123-124 | the recovered count is 0 when the key is absent, the parsed value when the stored text parses, and otherwise a `MalformedOffset` error carrying the stored text |
| JsonlProducer.Stream | jsonl-inbound-adapter/src/main/java/com/example/jsonl_inbound_adapter/JsonlInboundAdapterApplication.java:137-143 | the streaming loop stages the decodes of the lines from the read position on, in order; on a rejected line it reports that line, which the parser rejects, and stages the decodes of all lines before it |
| JsonlProducer.CatchUpFrom | jsonl-inbound-adapter/src/main/java/com/example/jsonl_inbound_adapter/JsonlInboundAdapterApplication.java:127-143 | after recovering count `k`, streaming starts at line `k` when `0 < k <= n`, at line 0 when `k <= 0`, and stages nothing when `k` is past the end of the file |
| JsonlProducer.OnInit | jsonl-inbound-adapter/src/main/java/com/example/jsonl_inbound_adapter/JsonlInboundAdapterApplication.java:122-154 | initialisation sets `started`, never writes the store, and sets the counter to the recovered count. It fails exactly when the stored text does not parse, the file is unreadable, or some line from the resume line on is rejected by the parser |
| JsonlProducer.Receive | jsonl-inbound-adapter/src/main/java/com/example/jsonl_inbound_adapter/JsonlInboundAdapterApplication.java:158-166 | polling fails exactly when the producer was never started. An empty queue yields nothing and changes nothing. A non-empty queue yields its head, drops it, wraps the counter forward by one and commits the counter's text under `offsetLine` |
| ProducerProperties.ReceiveTouchesOnlyOffsetKey | jsonl-inbound-adapter/src/main/java/com/example/jsonl_inbound_adapter/JsonlInboundAdapterApplication.java:163 | a delivery adds at most the key `offsetLine` to the store and leaves every other entry unchanged |
| ProducerProperties.CatchUpContents | jsonl-inbound-adapter/src/main/java/com/example/jsonl_inbound_adapter/JsonlInboundAdapterApplication.java:137-143 | a successful start leaves the queue as the old queue followed by the decode of every line from the resume line to the end of the file |
| ProducerProperties.DecodeFailureAborts | jsonl-inbound-adapter/src/main/java/com/example/jsonl_inbound_adapter/JsonlInboundAdapterApplication.java:137-154 | when initialisation reports a decode failure, the line it names is the first line at or after the resume line that the parser rejects, and the queue holds the old queue followed by the decodes of the lines before it |
| ProducerProperties.RejectedLineReportsDecodeFailed | jsonl-inbound-adapter/src/main/java/com/example/jsonl_inbound_adapter/JsonlInboundAdapterApplication.java:137-154 | conversely, when the stored count parses and the file opens, any rejected line at or after the resume line makes initialisation fail with a decode failure, naming the first rejected line, which is no later than that line |
| ProducerProperties.NoStoreStartsAtLineZero | jsonl-inbound-adapter/src/main/java/com/example/jsonl_inbound_adapter/JsonlInboundAdapterApplication.java:117-124 | a producer built without a store starts its counter at 0 and stages the decode of every line of the file |
| ProducerProperties.InitEstablishesResumable | jsonl-inbound-adapter/src/main/java/com/example/jsonl_inbound_adapter/JsonlInboundAdapterApplication.java:123-143 | a successful start from an empty queue with a committed count inside the file establishes the resume invariant: the counter equals the committed count, the committed text parses back to it, and the queue holds the decodes of exactly the lines after it |
| ProducerProperties.ReceivePreservesResumable | jsonl-inbound-adapter/src/main/java/com/example/jsonl_inbound_adapter/JsonlInboundAdapterApplication.java:158-165 | one poll keeps that invariant: the delivered line is now counted and committed, and the rest of the file is still queued |
| ProducerProperties.PollExhausted | jsonl-inbound-adapter/src/main/java/com/example/jsonl_inbound_adapter/JsonlInboundAdapterApplication.java:160-165 | once the queue is empty, any number of polls delivers nothing and changes nothing |
| ProducerProperties.PollDeliversInOrder | jsonl-inbound-adapter/src/main/java/com/example/jsonl_inbound_adapter/JsonlInboundAdapterApplication.java:160-165 | `m` successive polls deliver exactly the first `m` queued records (or all of them) in queue order |
| ProducerProperties.PollLeavesRest | jsonl-inbound-adapter/src/main/java/com/example/jsonl_inbound_adapter/JsonlInboundAdapterApplication.java:160 | after `m` polls the queue is the original queue with the delivered records removed from the front, and the file and `started` are unchanged |
| ProducerProperties.PollAdvancesCounter | jsonl-inbound-adapter/src/main/java/com/example/jsonl_inbound_adapter/JsonlInboundAdapterApplication.java:162 | after `m` polls the counter has advanced once per delivered record |
| ProducerProperties.PollCommitsOffsetOnly | jsonl-inbound-adapter/src/main/java/com/example/jsonl_inbound_adapter/JsonlInboundAdapterApplication.java:163 | after polls that delivered something, the store holds the counter's text under `offsetLine` and every other entry is unchanged; with nothing delivered the producer is unchanged |
| ProducerProperties.PollPreservesResumable | jsonl-inbound-adapter/src/main/java/com/example/jsonl_inbound_adapter/JsonlInboundAdapterApplication.java:158-165 | any number of polls keeps the resume invariant |
| ProducerProperties.RestartReproducesState | jsonl-inbound-adapter/src/main/java/com/example/jsonl_inbound_adapter/JsonlInboundAdapterApplication.java:112-143 | rebuilding a producer from the store and file of a resumable one and starting it gives back the same counter and queue, without failure |
| ProducerProperties.PollDeliversNextLines | jsonl-inbound-adapter/src/main/java/com/example/jsonl_inbound_adapter/JsonlInboundAdapterApplication.java:122-165 | from any producer that keeps the resume invariant, `m` polls deliver the decodes of the next `m` lines after the counter, or of all that remain, and the counter moves past exactly those lines |
| ProducerProperties.DeliveriesThenRestart | jsonl-inbound-adapter/src/main/java/com/example/jsonl_inbound_adapter/JsonlInboundAdapterApplication.java:122-165 | from any producer that keeps the resume invariant, a restart after `m` polls, from the store they left and the same file, rebuilds exactly the producer they left, without failure |
| ProducerProperties.ResumeAfterDeliveries | jsonl-inbound-adapter/src/main/java/com/example/jsonl_inbound_adapter/JsonlInboundAdapterApplication.java:122-165 | the whole life cycle: a new producer started from a committed count `k` inside the file delivers over `m` polls the decodes of lines `k` to `k+d`, the store then reads back `k+d`, and a restart resumes exactly there |
| ProducerProperties.DeliveredThenRequeuedIsQueue | jsonl-inbound-adapter/src/main/java/com/example/jsonl_inbound_adapter/JsonlInboundAdapterApplication.java:122-165 | conservation: the records delivered before a restart followed by the records queued after it are exactly the records queued before the deliveries |
| ProducerProperties.CrashBeforeCommitLosesNothing | jsonl-inbound-adapter/src/main/java/com/example/jsonl_inbound_adapter/JsonlInboundAdapterApplication.java:122-165 | a producer restarted from the store as it was before a poll wrote its checkpoint queues that poll's record again at the front, so a crash between taking the record and committing loses nothing |
| ProducerProperties.CommitPrecedesHandOff | jsonl-inbound-adapter/src/main/java/com/example/jsonl_inbound_adapter/JsonlInboundAdapterApplication.java:158-165 | once a poll has returned a record, a restart from the store it left succeeds and queues exactly the records after it: the returned record is not queued again |

## Behaviour of the code worth knowing

- A stored count that `Integer.parseInt` rejects makes initialisation fail (`MalformedOffset`). It does not fall back to 0.
- `started` is set before `start()` runs, so it stays set after a failed initialisation, and a later poll passes the guard.
- A decode failure leaves the records staged before the bad line in the queue.
- A stored count past the end of the file is not an error. The replay loop reads `null` past the end and nothing is staged.
- A negative stored count is accepted: nothing is skipped, and the counter starts at that negative value.
- Blank lines are handed to the parser like any other line; they are not skipped.
- The checkpoint is committed before the record is returned from `doReceive`. A record that was returned but not processed by its consumer is skipped after a restart: with respect to the consumer, delivery is at most once.
- Once the counter has reached `Integer.MAX_VALUE`, the next delivery wraps it to `Integer.MIN_VALUE`, and that negative text is committed.

## Left out

- Spring wiring (lines 32-97 of the same file): the integration flow, the poller, the channel, the handler and configuration properties. They are outside the producer.
- The JSON parser (Jackson `ObjectMapper.readTree`) is the opaque parameter `decode`. So the null-mapper default on line 116 has nothing to model.
- `RandomAccessFile` is modelled at line granularity. Byte offsets, line terminators, the ISO-8859-1 reading of `readLine`, and an `IOException` in the middle of a read are left out. Only "the file cannot be opened" is an error.
- MetadataStore persistence, and a `put` that fails, are left out; the store is a map.
- Concurrency and atomicity of `AtomicBoolean`, `AtomicInteger` and `ConcurrentLinkedQueue`: polls are sequential here.
- Logging and `getComponentType` (lines 103, 135, 168-171) do not affect state.
- JavaInt.ParseInt: accepts only ASCII digits, while `Integer.parseInt` also accepts other Unicode decimal digits. The committed text is always ASCII.
- ProducerProperties.ReceivePreservesResumable: requires the file to have at most `Integer.MAX_VALUE` lines, so the counter never wraps inside it; the wrap itself is modelled by `JavaInt.Increment`.
- ProducerProperties.PollPreservesResumable: requires the file to have at most `Integer.MAX_VALUE` lines, so the counter never wraps inside it; the wrap itself is modelled by `JavaInt.Increment`.
- ProducerProperties.PollDeliversNextLines: requires the file to have at most `Integer.MAX_VALUE` lines, so the counter never wraps inside it; the wrap itself is modelled by `JavaInt.Increment`.
- ProducerProperties.DeliveriesThenRestart: requires the file to have at most `Integer.MAX_VALUE` lines, so the counter never wraps inside it; the wrap itself is modelled by `JavaInt.Increment`.
- ProducerProperties.ResumeAfterDeliveries: requires the file to have at most `Integer.MAX_VALUE` lines, so the counter never wraps inside it; the wrap itself is modelled by `JavaInt.Increment`.
- ProducerProperties.DeliveredThenRequeuedIsQueue: requires the file to have at most `Integer.MAX_VALUE` lines, so the counter never wraps inside it; the wrap itself is modelled by `JavaInt.Increment`.
- ProducerProperties.CommitPrecedesHandOff: requires the file to have at most `Integer.MAX_VALUE` lines, so the counter never wraps inside it; the wrap itself is modelled by `JavaInt.Increment`.
- ProducerProperties.PollAdvancesCounter: requires the counter plus the queue length to stay within `Integer.MAX_VALUE`, for the same reason.
