/** The trade executor: a per-process `int` counter `tradesCount` that every
    delivered trade pre-increments, and the confirmation line
    `"[seq] trade (account: n) done"` each delivery produces. */
module TradeExecutor {
  import opened JavaLang
  import opened Messaging

  /** A trade as delivered: the `account` header and the payload. */
  datatype Trade = Trade(account: Int64, body: string)

  /** What a confirmation line carries. */
  datatype Confirmed = Confirmed(seqNo: int, trade: string, account: int)

  const ACCOUNT_INFIX: string := " (account: "
  const DONE_SUFFIX: string := ") done"

  /** `String.format("[%d] %s (account: %d) done", seqNo, trade, account)`. */
  function Confirmation(seqNo: int, trade: string, account: int): string
  {
    Unterminated(FormatDecimal(seqNo), trade, FormatDecimal(account)) + DONE_SUFFIX
  }

  /** Position of the first `c` in s, or |s| when there is none. */
  function FirstIndexOf(s: string, c: char): (k: nat)
    ensures k <= |s|
    ensures k < |s| ==> s[k] == c
    ensures forall i :: 0 <= i < k ==> s[i] != c
  {
    if s == [] then 0
    else if s[0] == c then 0
    else 1 + FirstIndexOf(s[1..], c)
  }

  /** Position of the last `c` in s, or -1 when there is none. */
  function LastIndexOf(s: string, c: char): (k: int)
    ensures -1 <= k < |s|
    ensures k >= 0 ==> s[k] == c
    ensures forall i :: k < i < |s| ==> s[i] != c
  {
    if s == [] then -1
    else if s[|s| - 1] == c then |s| - 1
    else LastIndexOf(s[..|s| - 1], c)
  }

  /** Reads a confirmation line back: the number between the leading `[` and
      the first `]`, the account between the last space and the `) done`
      suffix, and the trade in between. None for text of another shape. */
  function ParseConfirmation(line: string): Option<Confirmed>
  {
    if |line| < 1 + |DONE_SUFFIX| || line[0] != '[' || line[|line| - |DONE_SUFFIX|..] != DONE_SUFFIX then
      None
    else
      var rest := line[..|line| - |DONE_SUFFIX|];
      ParseFields(rest, FirstIndexOf(rest, ']'), LastIndexOf(rest, ' '))
  }

  /** `rest` is a line without its `) done` suffix; `i` is where its first
      `]` is and `j` where its last space is. */
  function ParseFields(rest: string, i: nat, j: int): Option<Confirmed>
    requires i <= |rest| && -1 <= j < |rest|
  {
    var k := j + 1 - |ACCOUNT_INFIX|;
    if 1 <= i && i + 2 <= k && rest[i..i + 2] == "] " && rest[k..j + 1] == ACCOUNT_INFIX
      && IsDecimalText(rest[1..i]) && IsDecimalText(rest[j + 1..])
    then
      Some(Confirmed(ParseDecimal(rest[1..i]), rest[i + 2..k], ParseDecimal(rest[j + 1..])))
    else
      None
  }

  lemma FirstIndexOfIsFirst(x: string, c: char, y: string)
    requires forall k :: 0 <= k < |x| ==> x[k] != c
    ensures FirstIndexOf(x + [c] + y, c) == |x|
  {
    var s := x + [c] + y;
    assert s[|x|] == c;
  }

  lemma LastIndexOfIsLast(x: string, c: char, y: string)
    requires forall k :: 0 <= k < |y| ==> y[k] != c
    ensures LastIndexOf(x + [c] + y, c) == |x|
  {
    var s := x + [c] + y;
    assert s[|x|] == c;
  }

  lemma MiddleSlice(a: string, b: string, c: string)
    ensures (a + b + c)[|a|..|a| + |b|] == b
  {
  }

  /** A confirmation line without its `) done` suffix, from the rendered
      sequence number and account. */
  function Unterminated(sd: string, trade: string, ad: string): string
  {
    "[" + sd + "] " + trade + ACCOUNT_INFIX + ad
  }

  lemma IndexesOfUnterminated(sd: string, trade: string, ad: string)
    requires IsDecimalText(sd) && IsDecimalText(ad)
    ensures var rest := Unterminated(sd, trade, ad);
      FirstIndexOf(rest, ']') == 1 + |sd| && LastIndexOf(rest, ' ') == |rest| - |ad| - 1
  {
    var rest := Unterminated(sd, trade, ad);
    var head := "[" + sd;
    assert rest == head + [']'] + (" " + trade + ACCOUNT_INFIX + ad);
    assert forall k :: 0 <= k < |head| ==> head[k] != ']' by {
      forall k | 1 <= k < |head| ensures head[k] != ']' {
        assert head[k] == sd[k - 1];
      }
    }
    FirstIndexOfIsFirst(head, ']', " " + trade + ACCOUNT_INFIX + ad);
    var front := "[" + sd + "] " + trade + " (account:";
    assert rest == front + [' '] + ad;
    LastIndexOfIsLast(front, ' ', ad);
  }

  lemma ParseFieldsOfUnterminated(sd: string, trade: string, ad: string)
    requires IsDecimalText(sd) && IsDecimalText(ad)
    ensures var rest := Unterminated(sd, trade, ad);
      ParseFields(rest, 1 + |sd|, |rest| - |ad| - 1) == Some(Confirmed(ParseDecimal(sd), trade, ParseDecimal(ad)))
  {
    var rest := Unterminated(sd, trade, ad);
    var i, j := 1 + |sd|, |rest| - |ad| - 1;
    var pre := "[" + sd + "] ";
    assert rest == pre + trade + (ACCOUNT_INFIX + ad);
    MiddleSlice(pre, trade, ACCOUNT_INFIX + ad);
    assert rest[1..i] == sd;
    assert rest[j + 1..] == ad;
    assert rest[i..i + 2] == "] ";
    assert rest[j + 1 - |ACCOUNT_INFIX|..j + 1] == ACCOUNT_INFIX;
  }

  /** A line with the `) done` suffix and a leading `[` is parsed field by field. */
  lemma ParseTerminated(rest: string)
    requires |rest| >= 1 && rest[0] == '['
    ensures ParseConfirmation(rest + DONE_SUFFIX) == ParseFields(rest, FirstIndexOf(rest, ']'), LastIndexOf(rest, ' '))
  {
    var line := rest + DONE_SUFFIX;
    assert line[..|line| - |DONE_SUFFIX|] == rest;
    assert line[|line| - |DONE_SUFFIX|..] == DONE_SUFFIX;
  }

  /** A line assembled from any two decimal texts reads back as their values
      and the trade between them. */
  lemma ParseUnterminated(sd: string, trade: string, ad: string)
    requires IsDecimalText(sd) && IsDecimalText(ad)
    ensures ParseConfirmation(Unterminated(sd, trade, ad) + DONE_SUFFIX) == Some(Confirmed(ParseDecimal(sd), trade, ParseDecimal(ad)))
  {
    var rest := Unterminated(sd, trade, ad);
    calc {
      ParseConfirmation(rest + DONE_SUFFIX);
      == { ParseTerminated(rest); }
      ParseFields(rest, FirstIndexOf(rest, ']'), LastIndexOf(rest, ' '));
      == { IndexesOfUnterminated(sd, trade, ad); }
      ParseFields(rest, 1 + |sd|, |rest| - |ad| - 1);
      == { ParseFieldsOfUnterminated(sd, trade, ad); }
      Some(Confirmed(ParseDecimal(sd), trade, ParseDecimal(ad)));
    }
  }

  /** Reading a confirmation line back gives the sequence number, trade and
      account it was written from. */
  lemma ParseConfirmationRoundTrip(seqNo: int, trade: string, account: int)
    ensures ParseConfirmation(Confirmation(seqNo, trade, account)) == Some(Confirmed(seqNo, trade, account))
  {
    FormatDecimalRoundTrip(seqNo);
    FormatDecimalRoundTrip(account);
    ParseUnterminated(FormatDecimal(seqNo), trade, FormatDecimal(account));
  }

  /** Two confirmation lines are equal only when they carry the same
      sequence number, trade and account. */
  lemma ConfirmationInjective(n1: int, t1: string, a1: int, n2: int, t2: string, a2: int)
    requires Confirmation(n1, t1, a1) == Confirmation(n2, t2, a2)
    ensures n1 == n2 && t1 == t2 && a1 == a2
  {
    ParseConfirmationRoundTrip(n1, t1, a1);
    ParseConfirmationRoundTrip(n2, t2, a2);
  }

  /** What the executor confirms for the trades delivered to it, starting
      from `tradesCount == 0`, in delivery order: the k-th record carries the
      counter value after k increments. */
  function Records(delivered: seq<Trade>): (rs: seq<Confirmed>)
    ensures |rs| == |delivered|
  {
    if delivered == [] then []
    else
      var k := |delivered| - 1;
      Records(delivered[..k]) + [Confirmed(CountAfter(|delivered|), delivered[k].body, delivered[k].account)]
  }

  /** The confirmation line of each record. */
  function Lines(rs: seq<Confirmed>): (lines: seq<string>)
    ensures |lines| == |rs|
  {
    seq(|rs|, i requires 0 <= i < |rs| => Render(rs[i]))
  }

  /** The confirmation line a record is written as. */
  function Render(c: Confirmed): string
  {
    Confirmation(c.seqNo, c.trade, c.account)
  }

  /** The lines an executor starting from `tradesCount == 0` emits for the
      trades delivered to it. */
  function Log(delivered: seq<Trade>): (lines: seq<string>)
    ensures |lines| == |delivered|
  {
    Lines(Records(delivered))
  }

  /** One more delivery appends its confirmation, under the counter value
      after that many increments. */
  lemma LogAppend(delivered: seq<Trade>, t: Trade)
    ensures Log(delivered + [t]) == Log(delivered) + [Confirmation(CountAfter(|delivered| + 1), t.body, t.account)]
  {
    assert (delivered + [t])[..|delivered|] == delivered;
    LinesAppend(Records(delivered), Confirmed(CountAfter(|delivered| + 1), t.body, t.account));
  }

  /** Rendering one more record appends one more line. */
  lemma LinesAppend(rs: seq<Confirmed>, c: Confirmed)
    ensures Lines(rs + [c]) == Lines(rs) + [Render(c)]
  {
    var a, b := Lines(rs + [c]), Lines(rs) + [Render(c)];
    forall i | 0 <= i < |a|
      ensures a[i] == b[i]
    {
      if i < |rs| {
        assert (rs + [c])[i] == rs[i];
      }
    }
  }

  /** The i-th record (from 0) confirms the i-th delivery under the counter
      value after i + 1 increments. */
  lemma {:induction false} RecordEntry(delivered: seq<Trade>, i: nat)
    requires i < |delivered|
    ensures Records(delivered)[i] == Confirmed(CountAfter(i + 1), delivered[i].body, delivered[i].account)
    decreases |delivered|
  {
    var k := |delivered| - 1;
    if i < k {
      RecordEntry(delivered[..k], i);
      assert delivered[..k][i] == delivered[i];
    }
  }

  /** The i-th line (from 0) of the log is the confirmation of the i-th
      delivery under the counter value after i + 1 increments. */
  lemma LogEntry(delivered: seq<Trade>, i: nat)
    requires i < |delivered|
    ensures Log(delivered)[i] == Confirmation(CountAfter(i + 1), delivered[i].body, delivered[i].account)
  {
    RecordEntry(delivered, i);
  }

  /** Below the `int` overflow, the confirmations carry the sequence numbers
      1, 2, 3, … in delivery order, each echoing its own trade and account. */
  lemma LogSequenceNumbers(delivered: seq<Trade>)
    requires |delivered| <= MAX_INT
    ensures forall i :: 0 <= i < |delivered| ==>
      ParseConfirmation(Log(delivered)[i]) == Some(Confirmed(i + 1, delivered[i].body, delivered[i].account))
  {
    forall i | 0 <= i < |delivered|
      ensures ParseConfirmation(Log(delivered)[i]) == Some(Confirmed(i + 1, delivered[i].body, delivered[i].account))
    {
      LogLineParses(delivered, i);
    }
  }

  /** The i-th line of the log reads back as the i-th delivery numbered i + 1. */
  lemma LogLineParses(delivered: seq<Trade>, i: nat)
    requires i < |delivered| <= MAX_INT
    ensures ParseConfirmation(Log(delivered)[i]) == Some(Confirmed(i + 1, delivered[i].body, delivered[i].account))
  {
    var c := Records(delivered)[i];
    calc {
      ParseConfirmation(Log(delivered)[i]);
      ParseConfirmation(Render(c));
      == { ParseConfirmationRoundTrip(c.seqNo, c.trade, c.account); }
      Some(c);
      == { RecordEntry(delivered, i); }
      Some(Confirmed(i + 1, delivered[i].body, delivered[i].account));
    }
  }

  /** Below the `int` overflow, no two confirmations are alike: there are no
      duplicate sequence numbers. */
  lemma LogNoDuplicates(delivered: seq<Trade>, i: nat, j: nat)
    requires |delivered| <= MAX_INT
    requires i < j < |delivered|
    ensures Log(delivered)[i] != Log(delivered)[j]
  {
    LogSequenceNumbers(delivered);
  }

  /** Records are only ever appended. */
  lemma {:induction false} RecordsExtend(delivered: seq<Trade>, more: seq<Trade>)
    ensures Records(delivered + more)[..|delivered|] == Records(delivered)
    decreases |more|
  {
    if more != [] {
      var all := delivered + more;
      var k := |all| - 1;
      assert all[..k] == delivered + more[..|more| - 1];
      RecordsExtend(delivered, more[..|more| - 1]);
    } else {
      assert delivered + more == delivered;
    }
  }

  /** Delivering more trades only appends to the log: earlier confirmations
      are never rewritten. */
  lemma LogExtends(delivered: seq<Trade>, more: seq<Trade>)
    ensures Log(delivered + more)[..|delivered|] == Log(delivered)
  {
    RecordsExtend(delivered, more);
  }

  /** Past the `int` overflow the counter wraps: the delivery 2^32 places
      after another is confirmed under the same sequence number, so the
      numbers are unique only below MAX_INT deliveries. */
  lemma SequenceNumbersRepeat(delivered: seq<Trade>, i: nat)
    requires i + INT_RANGE < |delivered|
    ensures Records(delivered)[i].seqNo == Records(delivered)[i + INT_RANGE].seqNo
  {
    RecordEntry(delivered, i);
    RecordEntry(delivered, i + INT_RANGE);
    CountAfterWraps(i + 1);
    CountAfterWraps(i + 1 + INT_RANGE);
    NarrowPeriodic(i + 1);
  }

  /** `TradeExecutorApplication`: each delivered trade is executed by
      pre-incrementing `tradesCount` and logging one confirmation line. */
  class Executor {
    /** The `volatile int tradesCount` field. */
    var tradesCount: Int32
    /** Lines handed to the logger, oldest first. */
    var log: seq<string>
    /** The trades delivered so far, in delivery order. */
    ghost var delivered: seq<Trade>

    ghost predicate Valid()
      reads this
    {
      tradesCount == CountAfter(|delivered|) && log == Log(delivered)
    }

    constructor ()
      ensures Valid() && tradesCount == 0 && log == [] && delivered == []
    {
      tradesCount := 0;
      log := [];
      delivered := [];
    }

    /** `execute(account, trade)`: `++tradesCount`, then log the confirmation
        that carries the new count. */
    method Execute(account: Int64, trade: string)
      requires Valid()
      modifies this
      ensures Valid()
      ensures tradesCount == Increment(old(tradesCount))
      ensures old(tradesCount) < MAX_INT ==> tradesCount == old(tradesCount) + 1
      ensures log == old(log) + [Confirmation(tradesCount, trade, account)]
      ensures delivered == old(delivered) + [Trade(account, trade)]
    {
      LogAppend(delivered, Trade(account, trade));
      tradesCount := Increment(tradesCount);
      log := log + [Confirmation(tradesCount, trade, account)];
      delivered := delivered + [Trade(account, trade)];
    }

    /** Delivery of a message from the "trades" stream to `execute`: the
        `account` header is required, and a message without it is refused
        before the listener runs, changing nothing. */
    method Deliver(m: Message) returns (outcome: Outcome)
      requires Valid()
      modifies this
      ensures Valid()
      ensures outcome.Fail? <==> HeaderOf(m, ACCOUNT_HEADER).None?
      ensures outcome.Fail? ==> outcome.error == MissingHeaderException(ACCOUNT_HEADER)
      ensures outcome.Fail? ==>
        tradesCount == old(tradesCount) && log == old(log) && delivered == old(delivered)
      ensures outcome.Pass? ==>
        delivered == old(delivered) + [Trade(HeaderOf(m, ACCOUNT_HEADER).value, m.payload)] &&
        log == old(log) + [Confirmation(tradesCount, m.payload, HeaderOf(m, ACCOUNT_HEADER).value)]
    {
      match HeaderOf(m, ACCOUNT_HEADER)
      case None =>
        outcome := Fail(MissingHeaderException(ACCOUNT_HEADER));
      case Some(account) =>
        Execute(account, m.payload);
        outcome := Pass;
    }
  }
}
