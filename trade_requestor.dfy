/** The trade requestor: the partition selector it registers, and the
    scheduled producer that draws an account, selects its partition and
    publishes one trade request on the "trades" stream. */
module TradeRequestor {
  import opened JavaLang
  import opened Messaging

  /** The partition count the producer passes to the selector. */
  const PARTITION_COUNT: Int32 := 2

  /** The producer draws accounts from [0, ACCOUNTS). */
  const ACCOUNTS: int := 10

  /** The registered `PartitionSelectorStrategy`: `(int) (key % partitionCount)`
      with the `long` key and the `int` count promoted to `long`. A zero count
      raises ArithmeticException; no correction is made for a negative key. */
  function SelectPartition(key: Int64, partitionCount: Int32): (r: Result<Int32>)
    ensures r.Failure? <==> partitionCount == 0
    ensures r.Failure? ==> r.error == ArithmeticException
    // the narrowing cast loses nothing: the partition is the Java remainder itself
    ensures r.Success? ==> r.value == Rem(key, partitionCount)
    ensures partitionCount > 0 && key >= 0 ==>
      r.Success? && 0 <= r.value < partitionCount && r.value == key % partitionCount
    ensures partitionCount > 0 && key < 0 ==>
      r.Success? && -partitionCount < r.value <= 0
  {
    if partitionCount == 0 then
      Failure(ArithmeticException)
    else
      Success(Narrow(Rem(key, partitionCount)))
  }

  /** Keys that differ by a multiple of the partition count, and lie on the
      same side of zero, are sent to the same partition. */
  lemma SelectPartitionPeriodic(key: Int64, partitionCount: Int32, m: int)
    requires partitionCount != 0
    requires MIN_LONG <= key + m * partitionCount <= MAX_LONG
    requires (key >= 0 && key + m * partitionCount >= 0) || (key <= 0 && key + m * partitionCount <= 0)
    ensures SelectPartition(key + m * partitionCount, partitionCount) == SelectPartition(key, partitionCount)
  {
    var shifted := key + m * partitionCount;
    var q := Quot(key, partitionCount);
    var r := Rem(key, partitionCount);
    assert (q + m) * partitionCount == q * partitionCount + m * partitionCount by {
      Distribute(q, m, partitionCount);
    }
    RemUnique(shifted, partitionCount, q + m, r);
  }

  /** A negative key is not folded back into [0, partitionCount). */
  lemma NegativeKeySelectsNegativePartition()
    ensures SelectPartition(-3, 2) == Success(-1)
  {
  }

  /** The payload `String.format("Trade %d", now)` of a request made at `now`. */
  function TradeBody(now: Int64): (body: string)
    ensures |body| > 6 && body[..6] == "Trade "
    ensures IsDecimalText(body[6..]) && ParseDecimal(body[6..]) == now
  {
    var body := "Trade " + FormatDecimal(now);
    assert body[6..] == FormatDecimal(now);
    FormatDecimalRoundTrip(now);
    body
  }

  /** The published message: the body as payload and the key as the only
      header, under the name "account". */
  function TradeRequest(body: string, account: Int64): (m: Message)
    ensures m.payload == body
    ensures HeaderOf(m, ACCOUNT_HEADER) == Some(account)
    ensures m.headers.Keys == {ACCOUNT_HEADER}
  {
    SetHeader(WithPayload(body), ACCOUNT_HEADER, account)
  }

  class Requestor {
    /** Messages sent to the "trades" output channel, oldest first. */
    var sent: seq<Message>

    constructor ()
      ensures sent == []
    {
      sent := [];
    }

    /** One scheduled tick. `now` stands for the clock reading and `draw` for
        `nextInt(10)` of the account randomizer. Returns the partition the
        selector computed; appends exactly one message. */
    method ProduceTradeRequest(now: Int64, draw: int) returns (partition: Int32)
      requires 0 <= draw < ACCOUNTS
      modifies this
      ensures SelectPartition(draw, PARTITION_COUNT) == Success(partition)
      ensures partition == draw % 2 && (partition == 0 || partition == 1)
      ensures sent == old(sent) + [TradeRequest(TradeBody(now), draw)]
    {
      var body := TradeBody(now);
      var account: Int64 := draw;
      var selected := SelectPartition(account, PARTITION_COUNT);
      partition := selected.value;
      sent := sent + [TradeRequest(body, account)];
    }
  }
}
