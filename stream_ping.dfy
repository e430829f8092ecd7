/**
 * The bidirectional streaming ping exchange of the XSVM gRPC test: a sender
 * pushes "ping-0" .. "ping-(n-1)" in order and stops at the first failed
 * send; a receiver reads n replies and fails at the first reply that is
 * missing, fails to arrive, or is not the ping of its index. Each loop is
 * modelled on its own, over sequences and a transport function.
 */
module StreamPing {
  import Decimal

  /** The number of pings the test exchanges. */
  const PingCount: nat := 10

  /** The i-th message of the exchange: "ping-" followed by the decimal numeral of i. */
  function Ping(i: nat): (s: string)
    ensures |s| > 5 && s[..5] == "ping-"
    ensures forall k :: 5 <= k < |s| ==> Decimal.IsDigit(s[k])
  {
    "ping-" + Decimal.FormatNat(i)
  }

  /** The first n messages, in order. */
  function Pings(n: nat): seq<string> {
    seq(n, i requires 0 <= i => Ping(i))
  }

  /** An error reported by the stream; EndOfStream is what a receive returns once the server has closed. */
  datatype StreamError = EndOfStream | Transport(reason: string)

  /** What one receive on the stream yields. */
  datatype Received = Reply(message: string) | RecvFailed(err: StreamError)

  /** Why an exchange failed. */
  datatype ExchangeError = StreamFailed(err: StreamError) | UnexpectedReply(message: string)

  datatype Outcome<+E> = Pass | Fail(error: E)

  /** Reply i arrived and is the ping of index i. */
  predicate ReplyMatches(replies: seq<Received>, i: nat) {
    i < |replies| && replies[i] == Reply(Ping(i))
  }

  /** The receiver accepts: each of the first n replies is the ping of its index. */
  predicate Accepts(n: nat, replies: seq<Received>) {
    forall i :: 0 <= i < n ==> ReplyMatches(replies, i)
  }

  /** The error the receiver reports when it stops at reply i. */
  function ErrorAt(replies: seq<Received>, i: nat): ExchangeError {
    if i >= |replies| then StreamFailed(EndOfStream)
    else match replies[i]
      case RecvFailed(e) => StreamFailed(e)
      case Reply(m) => UnexpectedReply(m)
  }

  /** The stream's replies when the server echoes each message it received. */
  function Echo(messages: seq<string>): seq<Received> {
    seq(|messages|, i requires 0 <= i < |messages| => Reply(messages[i]))
  }

  /**
   * The receive loop: for i in 0..n, receive a reply, return its error if the
   * receive fails, and return an error if it is not "ping-i".
   */
  method ReceivePings(n: nat, replies: seq<Received>) returns (r: Outcome<ExchangeError>)
    ensures r.Pass? <==> Accepts(n, replies)
    ensures r.Fail? ==> exists k :: 0 <= k < n && !ReplyMatches(replies, k)
                          && (forall i :: 0 <= i < k ==> ReplyMatches(replies, i))
                          && r.error == ErrorAt(replies, k)
  {
    for i := 0 to n
      invariant forall j :: 0 <= j < i ==> ReplyMatches(replies, j)
    {
      if i >= |replies| {
        assert !ReplyMatches(replies, i);
        return Fail(StreamFailed(EndOfStream));
      }
      match replies[i]
      case RecvFailed(e) =>
        assert !ReplyMatches(replies, i);
        return Fail(StreamFailed(e));
      case Reply(m) =>
        if Ping(i) != m {
          assert !ReplyMatches(replies, i);
          return Fail(UnexpectedReply(m));
        }
    }
    return Pass;
  }

  /**
   * The send loop: for i in 0..n, send "ping-i"; stop with the error of the
   * first send that fails. `send(i, m)` is what the stream returns for the
   * i-th send, of message m. `sent` holds the messages the stream accepted.
   */
  method SendPings(n: nat, send: (nat, string) -> Outcome<StreamError>)
    returns (sent: seq<string>, r: Outcome<StreamError>)
    ensures |sent| <= n && sent == Pings(|sent|)
    ensures forall i :: 0 <= i < |sent| ==> send(i, Ping(i)).Pass?
    ensures r.Pass? <==> |sent| == n
    ensures r.Fail? ==> r == send(|sent|, Ping(|sent|))
  {
    sent := [];
    for i := 0 to n
      invariant sent == Pings(i)
      invariant forall j :: 0 <= j < i ==> send(j, Ping(j)).Pass?
    {
      var msg := Ping(i);
      var status := send(i, msg);
      if status.Fail? {
        return sent, status;
      }
      sent := sent + [msg];
    }
    return sent, Pass;
  }

  // ---------------------------------------------------------------------------
  // Properties of the exchange
  // ---------------------------------------------------------------------------

  /** Different indices give different messages, so the receiver can tell replies apart. */
  lemma PingInjective(i: nat, j: nat)
    ensures Ping(i) == Ping(j) <==> i == j
  {
    if Ping(i) == Ping(j) {
      assert Ping(i)[5..] == Decimal.FormatNat(i);
      assert Ping(j)[5..] == Decimal.FormatNat(j);
      Decimal.FormatInjective(i, j);
    }
  }

  /**
   * Echo ordering: over a server that echoes, the receiver accepts exactly
   * when the first n messages echoed are "ping-0" .. "ping-(n-1)" in order;
   * fewer messages, or any other order, is rejected.
   */
  lemma EchoAccepted(n: nat, messages: seq<string>)
    ensures Accepts(n, Echo(messages)) <==> n <= |messages| && messages[..n] == Pings(n)
  {
    var replies := Echo(messages);
    if Accepts(n, replies) {
      if n > 0 {
        assert ReplyMatches(replies, n - 1);
      }
      forall i | 0 <= i < n ensures messages[..n][i] == Pings(n)[i] {
        assert ReplyMatches(replies, i);
      }
    }
    if n <= |messages| && messages[..n] == Pings(n) {
      forall i | 0 <= i < n ensures ReplyMatches(replies, i) {
        assert messages[i] == messages[..n][i];
      }
    }
  }

  /**
   * An echoed session passes the receiver's check once the sender has passed,
   * that is, once it has sent n messages, each the ping of its index.
   */
  lemma EchoedSessionPasses(n: nat, sent: seq<string>)
    requires |sent| == n && sent == Pings(|sent|)
    ensures Accepts(n, Echo(sent))
  {
  }

  /** The test's exchange of PingCount pings, echoed back, passes the receiver's check. */
  lemma TestExchangePasses()
    ensures Accepts(PingCount, Echo(Pings(PingCount)))
    ensures forall i, j :: 0 <= i < j < PingCount ==> Pings(PingCount)[i] != Pings(PingCount)[j]
  {
    EchoedSessionPasses(PingCount, Pings(PingCount));
    forall i, j | 0 <= i < j < PingCount ensures Pings(PingCount)[i] != Pings(PingCount)[j] {
      PingInjective(i, j);
    }
  }

  /**
   * A reordering of the pings that moves any index (order[i] != i) is
   * rejected by the receiver.
   */
  lemma ReorderedRepliesRejected(order: seq<nat>)
    requires exists i :: 0 <= i < |order| && order[i] != i
    ensures !Accepts(|order|, Echo(seq(|order|, i requires 0 <= i < |order| => Ping(order[i]))))
  {
    var messages := seq(|order|, i requires 0 <= i < |order| => Ping(order[i]));
    var i :| 0 <= i < |order| && order[i] != i;
    PingInjective(order[i], i);
    assert !ReplyMatches(Echo(messages), i);
  }
}
