/** The single-process variant, `SpringStreamPartitioningApplication`: it
    produces trade requests, executes the trades delivered to it on the
    "trades" stream by publishing a confirmation on "tradeConfirmations", and
    prints every confirmation it receives back. */
module StreamPartitioning {
  import opened JavaLang
  import opened Messaging
  import opened TradeRequestor
  import opened TradeExecutor

  /** The sink's rendering `String.format("[%s]\n", trade)`: the received
      confirmation verbatim, between brackets, on a line of its own. */
  function SinkLine(trade: string): (line: string)
    ensures |line| == |trade| + 3
    ensures line[0] == '[' && line[1..|trade| + 1] == trade && line[|trade| + 1..] == "]\n"
  {
    "[" + trade + "]\n"
  }

  class PartitioningApp {
    /** The `volatile int tradesCount` field. */
    var tradesCount: Int32
    /** Messages sent to the "trades" output channel (`tradesEmitter`). */
    var tradesOut: seq<Message>
    /** Payloads sent to the confirmation output channel
        (`tradeConfirmationEmitter`); each is sent with no headers. */
    var confirmationsOut: seq<string>
    /** Lines the sink printed. */
    var console: seq<string>
    /** The trades consumed from the "trades" stream so far, in order. */
    ghost var consumed: seq<Trade>

    /** The counter has been incremented once per consumed trade, and the
        confirmation channel holds one confirmation per consumed trade, in
        consumption order. */
    ghost predicate Valid()
      reads this
    {
      tradesCount == CountAfter(|consumed|) &&
      confirmationsOut == Log(consumed)
    }

    constructor ()
      ensures Valid() && tradesCount == 0 && consumed == []
      ensures tradesOut == [] && confirmationsOut == [] && console == []
    {
      tradesCount := 0;
      tradesOut, confirmationsOut, console := [], [], [];
      consumed := [];
    }

    /** `produceTradeRequest`: one scheduled tick. `now` stands for the clock
        reading and `draw` for `nextInt(10)` of the account randomizer. Sends
        exactly one message and leaves the counter alone. */
    method ProduceTradeRequest(now: Int64, draw: int)
      requires Valid()
      requires 0 <= draw < ACCOUNTS
      modifies this
      ensures Valid()
      ensures tradesOut == old(tradesOut) + [TradeRequest(TradeBody(now), draw)]
      ensures tradesCount == old(tradesCount) && consumed == old(consumed)
      ensures confirmationsOut == old(confirmationsOut) && console == old(console)
    {
      var account: Int64 := draw;
      tradesOut := tradesOut + [TradeRequest(TradeBody(now), account)];
    }

    /** `tradeExecuter(account, trade)`: `++tradesCount`, then send one
        confirmation carrying the new count, the trade and the account. */
    method TradeExecuter(account: Int64, trade: string)
      requires Valid()
      modifies this
      ensures Valid()
      ensures tradesCount == Increment(old(tradesCount))
      ensures old(tradesCount) < MAX_INT ==> tradesCount == old(tradesCount) + 1
      ensures confirmationsOut == old(confirmationsOut) + [Confirmation(tradesCount, trade, account)]
      ensures consumed == old(consumed) + [Trade(account, trade)]
      ensures tradesOut == old(tradesOut) && console == old(console)
    {
      LogAppend(consumed, Trade(account, trade));
      tradesCount := Increment(tradesCount);
      confirmationsOut := confirmationsOut + [Confirmation(tradesCount, trade, account)];
      consumed := consumed + [Trade(account, trade)];
    }

    /** Delivery of a message from the "trades" stream to `tradeExecuter`:
        the `account` header is required, and a message without it is
        refused before the listener runs, changing nothing. */
    method Deliver(m: Message) returns (outcome: Outcome)
      requires Valid()
      modifies this
      ensures Valid()
      ensures outcome.Fail? <==> HeaderOf(m, ACCOUNT_HEADER).None?
      ensures outcome.Fail? ==> outcome.error == MissingHeaderException(ACCOUNT_HEADER)
      ensures outcome.Fail? ==>
        tradesCount == old(tradesCount) && consumed == old(consumed) &&
        confirmationsOut == old(confirmationsOut)
      ensures outcome.Pass? ==>
        consumed == old(consumed) + [Trade(HeaderOf(m, ACCOUNT_HEADER).value, m.payload)] &&
        confirmationsOut == old(confirmationsOut) +
          [Confirmation(tradesCount, m.payload, HeaderOf(m, ACCOUNT_HEADER).value)]
      ensures tradesOut == old(tradesOut) && console == old(console)
    {
      match HeaderOf(m, ACCOUNT_HEADER)
      case None =>
        outcome := Fail(MissingHeaderException(ACCOUNT_HEADER));
      case Some(account) =>
        TradeExecuter(account, m.payload);
        outcome := Pass;
    }

    /** `tradeConfirmations(trade)`: print the confirmation; nothing else changes. */
    method TradeConfirmations(trade: string)
      modifies this
      ensures console == old(console) + [SinkLine(trade)]
      ensures tradesCount == old(tradesCount) && consumed == old(consumed)
      ensures tradesOut == old(tradesOut) && confirmationsOut == old(confirmationsOut)
    {
      console := console + [SinkLine(trade)];
    }
  }

  /** The worked example's request: made at time 100, its payload is "Trade 100". */
  lemma ScenarioRequest()
    ensures TradeBody(100) == "Trade 100"
  {
    assert NatDigits(10) == "10";
  }

  /** The worked example's confirmation: the first trade, "Trade 100" for
      account 3, is confirmed as "[1] Trade 100 (account: 3) done". */
  lemma ScenarioConfirmation()
    ensures Confirmation(1, "Trade 100", 3) == "[1] Trade 100 (account: 3) done"
  {
    assert FormatDecimal(1) == "1" && FormatDecimal(3) == "3";
  }

  /** The worked example through a fresh application: account 3 goes to
      partition 1 of 2; the request made at time 100 is delivered, confirmed
      as the first trade with its body and account, and printed between
      brackets. */
  method EndToEnd()
  {
    assert SelectPartition(3, PARTITION_COUNT) == Success(1);
    ScenarioRequest();
    var app := new PartitioningApp();
    app.ProduceTradeRequest(100, 3);
    var outcome := app.Deliver(app.tradesOut[0]);
    assert outcome == Pass;
    var confirmation := app.confirmationsOut[0];
    ScenarioConfirmation();
    assert confirmation == "[1] Trade 100 (account: 3) done";
    ParseConfirmationRoundTrip(1, "Trade 100", 3);
    assert ParseConfirmation(confirmation) == Some(Confirmed(1, "Trade 100", 3));
    app.TradeConfirmations(confirmation);
    assert app.console == [SinkLine("[1] Trade 100 (account: 3) done")];
  }
}
