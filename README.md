# Partitioned trade requests over Spring Cloud Stream, in Dafny

The repository shows partitioned messaging with Spring Cloud Stream in three applications:

- **Trade requestor.** Every five seconds it publishes a request `"Trade <time>"` on the `trades` stream. The request carries a random account in [0, 10) as the `account` header. Before sending, it asks its registered partition selector for the request's partition of 2, `(int) (key % partitionCount)`, and logs it. The message itself carries no partition: the binder routes it with its own configured count.
- **Trade executor.** It consumes the requests. It pre-increments a per-process `int` counter `tradesCount` and logs `"[<count>] <trade> (account: <account>) done"`.
- **Single-process variant.** It produces the same requests and executes them in one application, but registers no partition selector and computes no partition. It publishes each confirmation on `tradeConfirmations`, consumes it back, and prints it as `"[<confirmation>]\n"`.

This project models those operations and proves what they promise:

- **Java arithmetic, written out.** `long % int` truncates toward zero, the `(int)` cast narrows modulo 2^32, and `++` on an `int` wraps from MAX_INT to MIN_INT. `%d` renders decimal text (`java_lang.dfy`).
- **Messages.** A payload plus named headers, and the exceptions the code can raise (`messaging.dfy`).
- **The selector and the producer** (`trade_requestor.dfy`).
- **The executor.** A class with the counter and the lines it logs, and the delivery step that binds the required `account` header. A ghost history of delivered trades ties the lines to a specification function `Log`, whose properties are proved as lemmas: the numbering, uniqueness below the overflow, the repeat after it, append-only growth, and a parser that reads each line back (`trade_executor.dfy`).
- **The single-process application.** A class with the counter, the two output channels and the console. It also covers the delivery step that binds the required `account` header, and the worked example from time 100 and account 3 to the printed line (`stream_partitioning.dfy`).

Two points about the selector and the executors:

- **Negative keys and counts.** The selector computes Java's `%`, so a negative key gives a negative partition (`SelectPartition(-3, 2) == Success(-1)`). Only a zero count fails, with `ArithmeticException`; a negative count is accepted.
- **No reply binding.** No executor returns its confirmation through `@SendTo`, which SpringStreamPartitioningApplication.java:14 imports but never uses, so no reply-binding variant is modelled.

## Model

| member | source | states |
|---|---|---|
| JavaLang.Rem | trade-requestor/src/main/java/com/pivotal/partitioning/TradeRequestorApplication.java:46 | Java's `%`: quotient times divisor plus remainder gives back the dividend, the remainder is smaller than the divisor in magnitude, and it takes the dividend's sign |
| JavaLang.RemUnique | trade-requestor/src/main/java/com/pivotal/partitioning/TradeRequestorApplication.java:46 | Those properties determine the remainder: any r with them equals `Rem(a, b)` |
| JavaLang.Narrow | trade-requestor/src/main/java/com/pivotal/partitioning/TradeRequestorApplication.java:46 | The `(int)` cast always yields an `int` and leaves values already in `int` range unchanged |
| JavaLang.NarrowCongruent | trade-requestor/src/main/java/com/pivotal/partitioning/TradeRequestorApplication.java:46 | The cast changes a value only by a multiple of 2^32 |
| JavaLang.NarrowPeriodic | trade-requestor/src/main/java/com/pivotal/partitioning/TradeRequestorApplication.java:46 | Values 2^32 apart are cast to the same `int` |
| JavaLang.Increment | trade-executor/src/main/java/com/pivotal/partitioning/TradeExecutorApplication.java:29 | `++` on an `int` adds one below MAX_INT and wraps MAX_INT to MIN_INT |
| JavaLang.IncrementNarrows | trade-executor/src/main/java/com/pivotal/partitioning/TradeExecutorApplication.java:29 | `++` equals the 32-bit narrowing of the mathematical successor |
| JavaLang.CountAfter | trade-executor/src/main/java/com/pivotal/partitioning/TradeExecutorApplication.java:22-29 | A counter starting at 0 holds n after n increments while n ≤ MAX_INT |
| JavaLang.CountAfterWraps | trade-executor/src/main/java/com/pivotal/partitioning/TradeExecutorApplication.java:22-29 | After any number n of increments the counter holds n narrowed to 32 bits (MIN_INT after 2^31, 0 after 2^32) |
| JavaLang.NatDigits | trade-executor/src/main/java/com/pivotal/partitioning/TradeExecutorApplication.java:29 | `%d` of a natural number is a non-empty string of digits without a leading zero |
| JavaLang.NatDigitsRoundTrip | trade-executor/src/main/java/com/pivotal/partitioning/TradeExecutorApplication.java:29 | The digits `%d` writes for a natural number denote that number |
| JavaLang.FormatDecimal | trade-executor/src/main/java/com/pivotal/partitioning/TradeExecutorApplication.java:29 | `%d` writes a non-empty text of digits and minus signs that starts with `-` exactly when the number is negative |
| JavaLang.FormatDecimalRoundTrip | trade-executor/src/main/java/com/pivotal/partitioning/TradeExecutorApplication.java:29 | Reading back the text `%d` writes gives the number written |
| JavaLang.FormatDecimalInjective | trade-executor/src/main/java/com/pivotal/partitioning/TradeExecutorApplication.java:29 | Distinct numbers get distinct `%d` texts |
| Messaging.WithPayload | trade-requestor/src/main/java/com/pivotal/partitioning/TradeRequestorApplication.java:40 | A message built from a payload alone carries that payload and no headers set by the application |
| Messaging.HeaderOf | src/main/java/com/pivotal/partitioning/SpringStreamPartitioningApplication.java:42 | A `@Header` lookup finds nothing exactly when the message lacks that header, and otherwise yields its value |
| Messaging.SetHeader | trade-requestor/src/main/java/com/pivotal/partitioning/TradeRequestorApplication.java:40 | Setting a header makes it readable with the new value, and keeps the payload and every other header |
| TradeRequestor.SelectPartition | trade-requestor/src/main/java/com/pivotal/partitioning/TradeRequestorApplication.java:44-47 | Fails with ArithmeticException exactly when the count is 0. Otherwise the partition is the Java remainder of key by count, so the cast loses nothing. It lies in [0, count) and equals the mathematical `mod` for a non-negative key and positive count, and in (-count, 0] for a negative key |
| TradeRequestor.SelectPartitionPeriodic | trade-requestor/src/main/java/com/pivotal/partitioning/TradeRequestorApplication.java:46 | Keys on the same side of zero that differ by a multiple of the count select the same partition |
| TradeRequestor.NegativeKeySelectsNegativePartition | trade-requestor/src/main/java/com/pivotal/partitioning/TradeRequestorApplication.java:46 | Key -3 with count 2 selects partition -1; no correction is made for negative keys |
| TradeRequestor.TradeBody | trade-requestor/src/main/java/com/pivotal/partitioning/TradeRequestorApplication.java:33 | The request payload is `"Trade "` followed by decimal text that reads back as the clock reading |
| TradeRequestor.TradeRequest | trade-requestor/src/main/java/com/pivotal/partitioning/TradeRequestorApplication.java:39-40 | The published message carries the body as payload and the account under `account`, the one header the application sets |
| TradeRequestor.Requestor.constructor | trade-requestor/src/main/java/com/pivotal/partitioning/TradeRequestorApplication.java:20-29 | A new requestor has sent nothing |
| TradeRequestor.Requestor.ProduceTradeRequest | trade-requestor/src/main/java/com/pivotal/partitioning/TradeRequestorApplication.java:31-41 | For a drawn account in [0, 10), the selected partition is that account's selector result, equal to account mod 2 and so 0 or 1. Exactly one request with that body and account header is appended to the sent messages |
| TradeExecutor.Confirmation | trade-executor/src/main/java/com/pivotal/partitioning/TradeExecutorApplication.java:29 | The confirmation line `"[%d] %s (account: %d) done"`, the same format the single-process application sends at SpringStreamPartitioningApplication.java:45. Its properties are the lemmas below: ParseConfirmationRoundTrip reads it back, ConfirmationInjective makes it one-to-one, and ScenarioConfirmation gives the worked example |
| TradeExecutor.ParseConfirmationRoundTrip | trade-executor/src/main/java/com/pivotal/partitioning/TradeExecutorApplication.java:29 | Parsing a confirmation line gives back the sequence number, trade and account it was formatted from, for any trade text |
| TradeExecutor.ConfirmationInjective | trade-executor/src/main/java/com/pivotal/partitioning/TradeExecutorApplication.java:29 | Two confirmation lines are equal only when their sequence numbers, trades and accounts are |
| TradeExecutor.Records | trade-executor/src/main/java/com/pivotal/partitioning/TradeExecutorApplication.java:22-30 | One confirmation record per delivered trade |
| TradeExecutor.Lines | trade-executor/src/main/java/com/pivotal/partitioning/TradeExecutorApplication.java:29 | One line per record |
| TradeExecutor.Log | trade-executor/src/main/java/com/pivotal/partitioning/TradeExecutorApplication.java:22-30 | One logged line per delivered trade |
| TradeExecutor.LogAppend | trade-executor/src/main/java/com/pivotal/partitioning/TradeExecutorApplication.java:28-29 | One more delivery appends exactly one line, numbered with the counter after that many increments |
| TradeExecutor.LinesAppend | trade-executor/src/main/java/com/pivotal/partitioning/TradeExecutorApplication.java:29 | Rendering one more record appends exactly its line |
| TradeExecutor.RecordEntry | trade-executor/src/main/java/com/pivotal/partitioning/TradeExecutorApplication.java:22-29 | The i-th record confirms the i-th delivery under the counter value after i + 1 increments |
| TradeExecutor.LogEntry | trade-executor/src/main/java/com/pivotal/partitioning/TradeExecutorApplication.java:22-29 | The i-th line is the confirmation of the i-th delivery under the counter value after i + 1 increments |
| TradeExecutor.LogLineParses | trade-executor/src/main/java/com/pivotal/partitioning/TradeExecutorApplication.java:22-29 | Below the overflow, the i-th line reads back as sequence number i + 1 with the i-th trade and account |
| TradeExecutor.LogSequenceNumbers | trade-executor/src/main/java/com/pivotal/partitioning/TradeExecutorApplication.java:22-29 | Below the overflow, the lines read back as sequence numbers 1, 2, 3, … in delivery order, each with its own trade and account |
| TradeExecutor.LogNoDuplicates | trade-executor/src/main/java/com/pivotal/partitioning/TradeExecutorApplication.java:22-29 | Below the overflow, no two confirmation lines are alike |
| TradeExecutor.RecordsExtend | trade-executor/src/main/java/com/pivotal/partitioning/TradeExecutorApplication.java:22-29 | Later deliveries never change earlier records |
| TradeExecutor.LogExtends | trade-executor/src/main/java/com/pivotal/partitioning/TradeExecutorApplication.java:22-29 | Later deliveries never change earlier lines; the log only grows at its end |
| TradeExecutor.SequenceNumbersRepeat | trade-executor/src/main/java/com/pivotal/partitioning/TradeExecutorApplication.java:22-29 | Past the overflow the `int` counter wraps: deliveries 2^32 apart get the same sequence number |
| TradeExecutor.Executor.constructor | trade-executor/src/main/java/com/pivotal/partitioning/TradeExecutorApplication.java:22 | A new executor has counter 0, an empty log and no deliveries, and its invariant holds |
| TradeExecutor.Executor.Execute | trade-executor/src/main/java/com/pivotal/partitioning/TradeExecutorApplication.java:27-30 | Pre-increments the counter, with wrap-around at MAX_INT, and appends exactly the confirmation that carries the new count, the trade and the account. It keeps the invariant that the counter and the log are those of the delivery history |
| TradeExecutor.Executor.Deliver | trade-executor/src/main/java/com/pivotal/partitioning/TradeExecutorApplication.java:27-28 | A message without the required `account` header fails with a missing-header exception and changes nothing. Any other message is executed with that header and the payload |
| StreamPartitioning.SinkLine | src/main/java/com/pivotal/partitioning/SpringStreamPartitioningApplication.java:49-52 | The printed line is the received confirmation verbatim between `[` and `]`, then a newline |
| StreamPartitioning.PartitioningApp.constructor | src/main/java/com/pivotal/partitioning/SpringStreamPartitioningApplication.java:24-30 | A new application has counter 0, nothing sent and nothing printed, and its invariant holds |
| StreamPartitioning.PartitioningApp.ProduceTradeRequest | src/main/java/com/pivotal/partitioning/SpringStreamPartitioningApplication.java:32-39 | Appends exactly one request with the body and account header to the trades channel, and changes nothing else |
| StreamPartitioning.PartitioningApp.TradeExecuter | src/main/java/com/pivotal/partitioning/SpringStreamPartitioningApplication.java:41-46 | Pre-increments the counter, with wrap-around, and sends exactly one confirmation carrying the new count, the trade and the account. It keeps the invariant tying the confirmation channel to the delivery history, and leaves the other channels alone |
| StreamPartitioning.PartitioningApp.Deliver | src/main/java/com/pivotal/partitioning/SpringStreamPartitioningApplication.java:41-42 | A message without the required `account` header fails with a missing-header exception and changes nothing. Any other message runs the listener with that header and the payload |
| StreamPartitioning.PartitioningApp.TradeConfirmations | src/main/java/com/pivotal/partitioning/SpringStreamPartitioningApplication.java:49-52 | Prints exactly one bracketed line for the received confirmation and changes nothing else |
| StreamPartitioning.ScenarioRequest | src/main/java/com/pivotal/partitioning/SpringStreamPartitioningApplication.java:34 | A request made at time 100 carries the payload `"Trade 100"` |
| StreamPartitioning.ScenarioConfirmation | src/main/java/com/pivotal/partitioning/SpringStreamPartitioningApplication.java:45 | The first trade `"Trade 100"` for account 3 is confirmed as `"[1] Trade 100 (account: 3) done"` |

## Left out

- The producers' log output is not modelled: the requestor's `logger.info` line and the combined application's `printf` of each request. They are diagnostics with no effect on the messages.
- The clock (`System.currentTimeMillis()`) and the account randomizer (`Random.nextInt(10)`) become the parameters `now` and `draw`. The fixed-rate scheduling is not modelled: each call is one tick.
- The message broker, its routing of a partition to a consumer instance, redelivery and the binder's own use of the selector are not modelled. The model records what each application sends and receives, in order.
- Concurrency is not modelled. The `volatile` counter is updated by one listener at a time, and `++` is modelled as an atomic step.
- The selector's key is modelled as a `long`. The `(Long)` cast's ClassCastException for a key of any other type is not modelled.
- The single-process application's confirmation channel is modelled by its payloads. The application sets no header on those messages, and the headers the framework adds are not modelled.
- Messaging.WithPayload: the `id` and `timestamp` headers that `MessageBuilder.build()` adds to every message are not modelled. The contract's "no headers" means none set by the application.
- TradeRequestor.TradeRequest: `account` is the only header the application sets; the framework-generated `id` and `timestamp` headers are not modelled.
- JavaLang.FormatDecimal: a default locale whose zero digit is '0' is assumed. `String.format` renders `%d` in the JVM's default locale, and a locale with other digits would change every formatted body and confirmation.
- Spring wiring (`@EnableBinding`, `@Autowired`, the `MessagingBridge` channel interfaces, `main`) is not modelled.
