/** The part of commons-net's `SMTPClient` the probe uses, over an abstract
    network. The socket and the wire protocol are not modelled: every reply
    code, and every exception a call throws, is read from an oracle. */
module Smtp {

  /** What one network call gives: the server's reply code, or an exception. */
  datatype Outcome = Reply(code: int) | Raised

  /** `SMTPReply.isPositiveCompletion`: every code beginning with a 2. */
  predicate IsPositiveCompletion(code: int) {
    200 <= code < 300
  }

  /** The oracle. `greeting(k)` is what the k-th `connect` gives (the
      greeting's reply code, or the exception it throws); `hangupFails(k)`
      says whether the k-th `disconnect` throws an `IOException`; `helo`,
      `mailFrom` and `rcptTo` are the connected server's replies to HELO,
      MAIL FROM and RCPT TO; `offline` is whatever a command gives when the
      client is not connected, one outcome shared by all three commands,
      which this model leaves open. `returned` in the client's methods means
      "the call did not throw", not the library's positive-completion
      boolean. */
  datatype Network = Network(
    greeting: nat -> Outcome,
    hangupFails: nat -> bool,
    helo: Outcome,
    mailFrom: Outcome,
    rcptTo: Outcome,
    offline: Outcome)

  /** One call on the client, with what it gave. */
  datatype Call =
    | Connect(host: string, greeting: Outcome)
    | Disconnect(failed: bool)
    | Login(hostname: string, reply: Outcome)
    | SetSender(address: string, reply: Outcome)
    | AddRecipient(address: string, reply: Outcome)

  function Connects(calls: seq<Call>): nat {
    if calls == [] then 0
    else Connects(calls[..|calls| - 1]) + if calls[|calls| - 1].Connect? then 1 else 0
  }

  function Hangups(calls: seq<Call>): nat {
    if calls == [] then 0
    else Hangups(calls[..|calls| - 1]) + if calls[|calls| - 1].Disconnect? then 1 else 0
  }

  class SmtpClient {
    const network: Network
    var connected: bool
    /** `getReplyCode()`: the code of the last reply received. */
    var replyCode: int
    /** How many connects and disconnects were made: the indices into the
        oracle's `greeting` and `hangupFails`. They equal the counts over
        `calls` (see `Valid`), kept as fields so a call reads its oracle
        entry without recounting the log. */
    var connects: nat
    var disconnects: nat
    /** Every call made on this client so far, in order. */
    var calls: seq<Call>

    ghost predicate Valid()
      reads this
    {
      connects == Connects(calls) && disconnects == Hangups(calls)
    }

    constructor (network: Network)
      ensures Valid()
      ensures this.network == network
      ensures !connected && replyCode == 0 && calls == []
    {
      this.network := network;
      connected := false;
      replyCode := 0;
      connects, disconnects := 0, 0;
      calls := [];
    }

    /** `connect(host)`: opens the connection and reads the greeting, whose
        code becomes the reply code; or throws. */
    method Connect(host: string) returns (returned: bool)
      requires Valid()
      modifies this
      ensures Valid()
      ensures var g := network.greeting(old(connects));
        && calls == old(calls) + [Call.Connect(host, g)]
        && returned == g.Reply?
        && connected == returned
        && replyCode == (if returned then g.code else old(replyCode))
    {
      var g := network.greeting(connects);
      assert (calls + [Call.Connect(host, g)])[..|calls|] == calls;
      calls := calls + [Call.Connect(host, g)];
      connects := connects + 1;
      returned := g.Reply?;
      connected := returned;
      if returned {
        replyCode := g.code;
      }
    }

    /** `disconnect()`: the connection is closed whether or not closing
        throws. */
    method Disconnect() returns (returned: bool)
      requires Valid()
      modifies this
      ensures Valid()
      ensures var failed := network.hangupFails(old(disconnects));
        && calls == old(calls) + [Call.Disconnect(failed)]
        && returned == !failed
        && !connected
        && replyCode == old(replyCode)
    {
      var failed := network.hangupFails(disconnects);
      assert (calls + [Call.Disconnect(failed)])[..|calls|] == calls;
      calls := calls + [Call.Disconnect(failed)];
      disconnects := disconnects + 1;
      connected := false;
      returned := !failed;
    }

    /** What a command gives: the server's reply when connected, the
        unspecified `offline` outcome otherwise. */
    function Answer(reply: Outcome): Outcome
      reads this
    {
      if connected then reply else network.offline
    }

    /** `login(hostname)`: HELO. */
    method Login(hostname: string) returns (returned: bool)
      requires Valid()
      modifies this
      ensures Valid()
      ensures var o := old(Answer(network.helo));
        && calls == old(calls) + [Call.Login(hostname, o)]
        && returned == o.Reply?
        && connected == old(connected)
        && replyCode == (if returned then o.code else old(replyCode))
    {
      var o := Answer(network.helo);
      Record(Call.Login(hostname, o));
      returned := o.Reply?;
      if returned {
        replyCode := o.code;
      }
    }

    /** `setSender(address)`: MAIL FROM. */
    method SetSender(address: string) returns (returned: bool)
      requires Valid()
      modifies this
      ensures Valid()
      ensures var o := old(Answer(network.mailFrom));
        && calls == old(calls) + [Call.SetSender(address, o)]
        && returned == o.Reply?
        && connected == old(connected)
        && replyCode == (if returned then o.code else old(replyCode))
    {
      var o := Answer(network.mailFrom);
      Record(Call.SetSender(address, o));
      returned := o.Reply?;
      if returned {
        replyCode := o.code;
      }
    }

    /** `addRecipient(address)`: RCPT TO. */
    method AddRecipient(address: string) returns (returned: bool)
      requires Valid()
      modifies this
      ensures Valid()
      ensures var o := old(Answer(network.rcptTo));
        && calls == old(calls) + [Call.AddRecipient(address, o)]
        && returned == o.Reply?
        && connected == old(connected)
        && replyCode == (if returned then o.code else old(replyCode))
    {
      var o := Answer(network.rcptTo);
      Record(Call.AddRecipient(address, o));
      returned := o.Reply?;
      if returned {
        replyCode := o.code;
      }
    }

    /** Appends a command (neither a connect nor a disconnect) to the log. */
    method Record(c: Call)
      requires Valid()
      requires !c.Connect? && !c.Disconnect?
      modifies this`calls
      ensures Valid()
      ensures calls == old(calls) + [c]
    {
      assert (calls + [c])[..|calls|] == calls;
      calls := calls + [c];
    }
  }
}
