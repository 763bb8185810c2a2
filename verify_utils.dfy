/** `VerifyUtils.isEmailValid`: checks the shape of a recipient address, looks
    up the MX hosts of its domain, connects to the first host whose greeting
    is a positive completion, walks HELO, MAIL FROM and RCPT TO, and answers
    true exactly when the reply to RCPT TO is 250. Every exception becomes
    false, and the client is always disconnected at the end. */
module VerifyUtils {
  import opened EmailPattern
  import opened JavaSplit
  import opened Smtp

  datatype Option<T> = None | Some(value: T)

  /** `REPLAY_CODE_SUCCESS` */
  const ReplyCodeSuccess: int := 250

  /** The sender the one-argument overload presents, `abc@qq.com`. */
  const DefaultLocal: string := "abc"
  const DefaultDomain: string := "qq.com"
  const DefaultSender: string := DefaultLocal + "@" + DefaultDomain

  /** What the MX lookup of a domain gives: a result other than SUCCESSFUL
      (an exception from building or running the lookup ends the same way),
      or the answers' host names in the order the resolver returned them. */
  datatype Resolution = Unresolved | Resolved(hosts: seq<string>)

  // ---------------------------------------------------------------------
  // Addresses

  /** An accepted recipient splits at its one `@` into exactly two fields:
      the local part and the whole rest. */
  lemma RecipientSplit(recipient: string)
    requires Matches(recipient)
    ensures |Split(recipient, '@')| == 2
    ensures exists at ::
      && 0 < at < |recipient| && recipient[at] == '@'
      && (forall j :: 0 <= j < |recipient| && recipient[j] == '@' ==> j == at)
      && Split(recipient, '@')[0] == recipient[..at]
      && Split(recipient, '@')[1] == recipient[at + 1..]
      && IsLocalPart(recipient[..at])
      && IsDottedDomain(recipient[at + 1..])
  {
    var at := AcceptedShape(recipient);
    var a, b := recipient[..at], recipient[at + 1..];
    assert recipient == a + ['@'] + b;
    assert '@' !in a by {
      forall k | 0 <= k < |a| ensures a[k] != '@' { assert IsLocalChar(a[k]); }
    }
    assert '@' !in b by {
      forall k | 0 <= k < |b| ensures b[k] != '@' { assert IsLabelChar(b[k]) || b[k] == '.'; }
    }
    SplitOne(a, b, '@');
  }

  /** `recipient.split("@")[1]`: the domain that is looked up. */
  function RecipientDomain(recipient: string): (d: string)
    requires Matches(recipient)
    ensures exists at ::
      && 0 < at < |recipient| && recipient[at] == '@'
      && (forall j :: 0 <= j < |recipient| && recipient[j] == '@' ==> j == at)
      && d == recipient[at + 1..]
    ensures IsDottedDomain(d)
  {
    RecipientSplit(recipient);
    Split(recipient, '@')[1]
  }

  /** `prefix + "@" + ("mail." + suffix)` from the first two fields of
      `sender.split("@")`; None where indexing field 1 fails. */
  function FromEmail(sender: string): (r: Option<string>)
    ensures r.Some? <==> exists i, j :: 0 <= i < j < |sender| && sender[i] == '@' && sender[j] != '@'
  {
    SplitTwoFields(sender, '@');
    var fields := Split(sender, '@');
    if |fields| >= 2 then Some(fields[0] + "@" + ("mail." + fields[1])) else None
  }

  /** A sender with one `@` between two `@`-free parts, the second non-empty,
      becomes `local@mail.domain`. */
  lemma FromEmailOf(local: string, domain: string)
    requires '@' !in local && '@' !in domain && domain != ""
    ensures Split(local + "@" + domain, '@') == [local, domain]
    ensures FromEmail(local + "@" + domain) == Some(local + "@mail." + domain)
  {
    SplitOne(local, domain, '@');
    assert local + "@" + ("mail." + domain) == local + "@mail." + domain;
  }

  /** The default sender logs in as `abc` and declares `abc@mail.qq.com`. */
  lemma DefaultSenderIdentity()
    ensures Split(DefaultSender, '@') == [DefaultLocal, DefaultDomain]
    ensures FromEmail(DefaultSender) == Some(DefaultLocal + "@mail." + DefaultDomain)
  {
    assert '@' !in DefaultLocal;
    assert '@' !in DefaultDomain;
    FromEmailOf(DefaultLocal, DefaultDomain);
  }

  // ---------------------------------------------------------------------
  // The candidate loop

  /** Where the loop over the MX hosts ends: connected to the host at
      `index`, thrown out by an exception, or run past the last host. */
  datatype Stop = Selected(index: nat) | Aborted | Exhausted

  datatype Acquisition = Acquisition(stop: Stop, calls: seq<Call>)

  /** The host at position `i` is tried and passed over: its greeting is a
      reply that is not 2xx and disconnecting from it does not throw. */
  predicate Rejects(net: Network, i: nat) {
    net.greeting(i).Reply? && !IsPositiveCompletion(net.greeting(i).code) && !net.hangupFails(i)
  }

  /** The loop from host `i` on, on a client that has made `i` connects
      and `i` disconnects. */
  function Scan(hosts: seq<string>, net: Network, i: nat): Acquisition
    requires i <= |hosts|
    decreases |hosts| - i
  {
    if i == |hosts| then Acquisition(Exhausted, [])
    else
      var g := net.greeting(i);
      if g.Raised? then Acquisition(Aborted, [Call.Connect(hosts[i], g)])
      else if IsPositiveCompletion(g.code) then Acquisition(Selected(i), [Call.Connect(hosts[i], g)])
      else if net.hangupFails(i) then Acquisition(Aborted, [Call.Connect(hosts[i], g), Call.Disconnect(true)])
      else
        var rest := Scan(hosts, net, i + 1);
        Acquisition(rest.stop, [Call.Connect(hosts[i], g), Call.Disconnect(false)] + rest.calls)
  }

  /** The calls made on the first `n` hosts when all of them are passed over. */
  function Tried(hosts: seq<string>, net: Network, n: nat): (r: seq<Call>)
    requires n <= |hosts|
  {
    if n == 0 then []
    else Tried(hosts, net, n - 1) + [Call.Connect(hosts[n - 1], net.greeting(n - 1)), Call.Disconnect(false)]
  }

  /** Hosts are connected to in the resolver's order, each passed-over one
      being disconnected before the next is tried. */
  lemma {:induction false} TriedInOrder(hosts: seq<string>, net: Network, n: nat)
    requires n <= |hosts|
    ensures |Tried(hosts, net, n)| == 2 * n
    ensures forall j :: 0 <= j < n ==>
      Tried(hosts, net, n)[2 * j] == Call.Connect(hosts[j], net.greeting(j)) &&
      Tried(hosts, net, n)[2 * j + 1] == Call.Disconnect(false)
  {
    if n > 0 {
      TriedInOrder(hosts, net, n - 1);
      var t := Tried(hosts, net, n);
      forall j | 0 <= j < n ensures t[2 * j] == Call.Connect(hosts[j], net.greeting(j)) && t[2 * j + 1] == Call.Disconnect(false) {
        if j < n - 1 {
          assert t[2 * j] == Tried(hosts, net, n - 1)[2 * j];
          assert t[2 * j + 1] == Tried(hosts, net, n - 1)[2 * j + 1];
        }
      }
    }
  }

  /** Passing over the first `i` hosts contributes exactly their calls. */
  lemma {:induction false} ScanSkips(hosts: seq<string>, net: Network, i: nat)
    requires i <= |hosts|
    requires forall j :: 0 <= j < i ==> Rejects(net, j)
    ensures Scan(hosts, net, 0) == Acquisition(Scan(hosts, net, i).stop, Tried(hosts, net, i) + Scan(hosts, net, i).calls)
    decreases i
  {
    if i > 0 {
      ScanSkips(hosts, net, i - 1);
      assert Rejects(net, i - 1);
      var pair := [Call.Connect(hosts[i - 1], net.greeting(i - 1)), Call.Disconnect(false)];
      assert Scan(hosts, net, i - 1) == Acquisition(Scan(hosts, net, i).stop, pair + Scan(hosts, net, i).calls);
      assert Tried(hosts, net, i - 1) + (pair + Scan(hosts, net, i).calls) == Tried(hosts, net, i) + Scan(hosts, net, i).calls;
    }
  }

  /** The loop settles on host `i` exactly when `i` is the first host whose
      greeting is 2xx and every host before it was passed over; the calls
      are then the earlier hosts' connect and disconnect, then connect to `i`. */
  lemma {:induction false} FirstAcceptingHost(hosts: seq<string>, net: Network, i: nat)
    ensures Scan(hosts, net, 0).stop == Selected(i) <==>
      && i < |hosts|
      && net.greeting(i).Reply? && IsPositiveCompletion(net.greeting(i).code)
      && (forall j :: 0 <= j < i ==> Rejects(net, j))
    ensures Scan(hosts, net, 0).stop == Selected(i) ==>
      i < |hosts| && Scan(hosts, net, 0).calls == Tried(hosts, net, i) + [Call.Connect(hosts[i], net.greeting(i))]
  {
    var k := PassedOver(hosts, net);
    ScanSkips(hosts, net, k);
    if i < |hosts| && net.greeting(i).Reply? && IsPositiveCompletion(net.greeting(i).code)
       && (forall j :: 0 <= j < i ==> Rejects(net, j)) {
      assert !Rejects(net, i);
      assert k <= i;
      assert i <= k;
    }
    if Scan(hosts, net, 0).stop == Selected(i) {
      assert k < |hosts|;
      assert i == k;
    }
  }

  /** The loop runs past the last host exactly when every host is passed over. */
  lemma {:induction false} ExhaustsOnlyIfAllRejected(hosts: seq<string>, net: Network)
    ensures Scan(hosts, net, 0).stop == Exhausted <==> forall j :: 0 <= j < |hosts| ==> Rejects(net, j)
    ensures Scan(hosts, net, 0).stop == Exhausted ==> Scan(hosts, net, 0).calls == Tried(hosts, net, |hosts|)
  {
    var k := PassedOver(hosts, net);
    ScanSkips(hosts, net, k);
    if forall j :: 0 <= j < |hosts| ==> Rejects(net, j) {
      assert k == |hosts|;
    }
  }

  /** The number of leading hosts that are passed over. */
  lemma PassedOver(hosts: seq<string>, net: Network) returns (k: nat)
    ensures k <= |hosts|
    ensures forall j :: 0 <= j < k ==> Rejects(net, j)
    ensures k < |hosts| ==> !Rejects(net, k)
  {
    k := 0;
    while k < |hosts| && Rejects(net, k)
      invariant k <= |hosts|
      invariant forall j :: 0 <= j < k ==> Rejects(net, j)
    {
      k := k + 1;
    }
  }

  /** A connect whose greeting was a reply that is not 2xx. */
  predicate IsRejectedConnect(c: Call) {
    c.Connect? && c.greeting.Reply? && !IsPositiveCompletion(c.greeting.code)
  }

  /** If the call at `k` is a disconnect, it comes right after a connect
      whose greeting was not 2xx. */
  predicate ClosesRejected(calls: seq<Call>, k: nat)
    requires k < |calls|
  {
    calls[k].Disconnect? ==> k > 0 && IsRejectedConnect(calls[k - 1])
  }

  /** The call at `k` is a connect or a disconnect that closes a rejected host. */
  predicate LoopCall(calls: seq<Call>, k: nat)
    requires k < |calls|
  {
    (calls[k].Connect? || calls[k].Disconnect?) && ClosesRejected(calls, k)
  }

  /** The loop makes connects and disconnects only, and every disconnect
      closes a host whose greeting was a reply that is not 2xx. */
  lemma {:induction false} ScanCalls(hosts: seq<string>, net: Network, i: nat)
    requires i <= |hosts|
    ensures forall k :: 0 <= k < |Scan(hosts, net, i).calls| ==> LoopCall(Scan(hosts, net, i).calls, k)
    decreases |hosts| - i
  {
    if i < |hosts| {
      ScanCalls(hosts, net, i + 1);
      var g := net.greeting(i);
      var c := Scan(hosts, net, i).calls;
      if g.Reply? && !IsPositiveCompletion(g.code) && !net.hangupFails(i) {
        var rest := Scan(hosts, net, i + 1).calls;
        assert c == [Call.Connect(hosts[i], g), Call.Disconnect(false)] + rest;
        forall k | 0 <= k < |c| ensures LoopCall(c, k) {
          if k == 0 {
            assert c[0] == Call.Connect(hosts[i], g);
          } else if k == 1 {
            assert c[0] == Call.Connect(hosts[i], g) && c[1] == Call.Disconnect(false);
          } else {
            assert LoopCall(rest, k - 2);
            assert c[k] == rest[k - 2];
            if k > 2 {
              assert c[k - 1] == rest[k - 3];
            }
          }
        }
      } else {
        forall k | 0 <= k < |c| ensures LoopCall(c, k) {
          assert c[0] == Call.Connect(hosts[i], g);
        }
      }
    }
  }

  /** The loop reads the greeting and disconnect outcomes only, and of the
      disconnects only those it performs. */
  lemma {:induction false} ScanReadsOwnHangups(hosts: seq<string>, net: Network, other: Network, i: nat)
    requires i <= |hosts|
    requires forall k :: net.greeting(k) == other.greeting(k)
    requires forall k :: i <= k < i + Hangups(Scan(hosts, net, i).calls) ==> net.hangupFails(k) == other.hangupFails(k)
    ensures Scan(hosts, other, i) == Scan(hosts, net, i)
    ensures Hangups(Scan(hosts, net, i).calls) <= |hosts| - i + 1
    decreases |hosts| - i
  {
    if i < |hosts| {
      var g := net.greeting(i);
      assert other.greeting(i) == g;
      if g.Reply? && !IsPositiveCompletion(g.code) {
        var c := Scan(hosts, net, i).calls;
        var pair := [Call.Connect(hosts[i], g), Call.Disconnect(net.hangupFails(i))];
        assert c[..2] == pair;
        HangupsPrefix(c, 2);
        assert Hangups(pair) == 1 by {
          assert pair == [Call.Connect(hosts[i], g)] + [Call.Disconnect(net.hangupFails(i))];
          HangupsSingle(Call.Connect(hosts[i], g));
          HangupsSingle(Call.Disconnect(net.hangupFails(i)));
          HangupsAppend([Call.Connect(hosts[i], g)], [Call.Disconnect(net.hangupFails(i))]);
        }
        if !net.hangupFails(i) {
          var rest := Scan(hosts, net, i + 1).calls;
          assert c == pair + rest;
          HangupsAppend(pair, rest);
          ScanReadsOwnHangups(hosts, net, other, i + 1);
        }
      }
    }
  }

  lemma {:induction false} HangupsAppend(xs: seq<Call>, ys: seq<Call>)
    ensures Hangups(xs + ys) == Hangups(xs) + Hangups(ys)
    decreases |ys|
  {
    if ys == [] {
      assert xs + ys == xs;
    } else {
      assert (xs + ys)[..|xs + ys| - 1] == xs + ys[..|ys| - 1];
      HangupsAppend(xs, ys[..|ys| - 1]);
    }
  }

  lemma HangupsSingle(c: Call)
    ensures Hangups([c]) == if c.Disconnect? then 1 else 0
  {
    assert [c][..0] == [];
  }

  lemma HangupsPrefix(xs: seq<Call>, n: nat)
    requires n <= |xs|
    ensures Hangups(xs[..n]) <= Hangups(xs)
  {
    assert xs == xs[..n] + xs[n..];
    HangupsAppend(xs[..n], xs[n..]);
  }

  // ---------------------------------------------------------------------
  // The try block, the finally block and the whole probe

  /** What the try block decides, and the calls it makes. */
  datatype Attempt = Attempt(valid: bool, calls: seq<Call>)

  /** The commands after the loop, on a client that is connected or not:
      HELO as the sender's first field, MAIL FROM the synthetic sender,
      RCPT TO the recipient; an index failure or a command's exception ends
      the block with false. */
  function Commands(recipient: string, sender: string, connected: bool, net: Network): Attempt {
    var fields := Split(sender, '@');
    if |fields| == 0 then Attempt(false, [])
    else
      var login := Call.Login(fields[0], if connected then net.helo else net.offline);
      if login.reply.Raised? || |fields| < 2 then Attempt(false, [login])
      else
        var from := Call.SetSender(fields[0] + "@" + ("mail." + fields[1]), if connected then net.mailFrom else net.offline);
        if from.reply.Raised? then Attempt(false, [login, from])
        else
          var rcpt := Call.AddRecipient(recipient, if connected then net.rcptTo else net.offline);
          Attempt(rcpt.reply == Reply(ReplyCodeSuccess), [login, from, rcpt])
  }

  /** The try block once the MX lookup has answered. */
  function Body(recipient: string, sender: string, answer: Resolution, net: Network): Attempt {
    match answer
    case Unresolved => Attempt(false, [])
    case Resolved(hosts) =>
      var a := Scan(hosts, net, 0);
      if a.stop == Aborted then Attempt(false, a.calls)
      else
        var c := Commands(recipient, sender, a.stop.Selected?, net);
        Attempt(c.valid, a.calls + c.calls)
  }

  /** What one call of `isEmailValid(recipient, sender)` does: its result,
      the domain it looks up (None when it does not), and every call on the
      SMTP client, the final disconnect included. */
  datatype Probe = Probe(valid: bool, query: Option<string>, calls: seq<Call>)

  function Expected(recipient: string, sender: string, dns: string -> Resolution, net: Network): Probe {
    if !Matches(recipient) then Probe(false, None, [])
    else
      var domain := RecipientDomain(recipient);
      var b := Body(recipient, sender, dns(domain), net);
      Probe(b.valid, Some(domain), b.calls + [Call.Disconnect(net.hangupFails(Hangups(b.calls)))])
  }

  /** The loop of lines 57-81 on the fresh client. */
  method ConnectFirstAccepting(client: SmtpClient, hosts: seq<string>) returns (stop: Stop)
    requires client.Valid() && client.calls == [] && !client.connected
    modifies client
    ensures client.Valid()
    ensures Acquisition(stop, client.calls) == Scan(hosts, client.network, 0)
    ensures client.connected == stop.Selected?
  {
    ghost var net := client.network;
    var i := 0;
    while i < |hosts|
      invariant 0 <= i <= |hosts|
      invariant client.Valid() && client.network == net
      invariant client.calls == Tried(hosts, net, i)
      invariant forall j :: 0 <= j < i ==> Rejects(net, j)
      invariant client.connects == i && client.disconnects == i
      invariant !client.connected
    {
      ScanSkips(hosts, net, i);
      var returned := client.Connect(hosts[i]);
      if !returned {
        return Aborted;
      }
      if IsPositiveCompletion(client.replyCode) {
        return Selected(i);
      }
      returned := client.Disconnect();
      if !returned {
        return Aborted;
      }
      i := i + 1;
    }
    ScanSkips(hosts, net, i);
    assert Tried(hosts, net, i) + [] == Tried(hosts, net, i);
    return Exhausted;
  }

  /** The try block of lines 46-103, on the fresh client, once the lookup of
      line 48 has answered; every early `return false` stands for an
      exception or the failed lookup. */
  method TryBlock(client: SmtpClient, recipient: string, sender: string, answer: Resolution) returns (valid: bool)
    requires client.Valid() && client.calls == [] && !client.connected
    modifies client
    ensures client.Valid()
    ensures Attempt(valid, client.calls) == Body(recipient, sender, answer, client.network)
  {
    if answer.Unresolved? {
      return false;
    }
    var stop := ConnectFirstAccepting(client, answer.hosts);
    if stop == Aborted {
      return false;
    }
    valid := IssueCommands(client, recipient, sender);
  }

  /** Lines 85-103: HELO, MAIL FROM, RCPT TO and the decision. */
  method IssueCommands(client: SmtpClient, recipient: string, sender: string) returns (valid: bool)
    requires client.Valid()
    modifies client
    ensures client.Valid()
    ensures var c := Commands(recipient, sender, old(client.connected), client.network);
      valid == c.valid && client.calls == old(client.calls) + c.calls
  {
    var fields := Split(sender, '@');
    if |fields| == 0 {
      assert client.calls + [] == client.calls;
      return false;
    }
    var emailPrefix := fields[0];
    var returned := client.Login(emailPrefix);
    if !returned || |fields| < 2 {
      return false;
    }
    var emailSuffix := "mail." + fields[1];
    var fromEmail := emailPrefix + "@" + emailSuffix;
    returned := client.SetSender(fromEmail);
    if !returned {
      return false;
    }
    returned := client.AddRecipient(recipient);
    if !returned {
      return false;
    }
    valid := ReplyCodeSuccess == client.replyCode;
  }

  /** `isEmailValid(recipient, sender)`. */
  method IsEmailValidWithSender(recipient: string, sender: string, dns: string -> Resolution, net: Network)
    returns (valid: bool, query: Option<string>, calls: seq<Call>)
    ensures Probe(valid, query, calls) == Expected(recipient, sender, dns, net)
    ensures !Matches(recipient) ==> !valid && query == None && calls == []
    ensures Matches(recipient) ==> query == Some(RecipientDomain(recipient)) && calls != [] && calls[|calls| - 1].Disconnect?
    ensures Matches(recipient) && dns(RecipientDomain(recipient)) == Unresolved ==>
              !valid && calls == [Call.Disconnect(net.hangupFails(0))]
  {
    if !Matches(recipient) {
      return false, None, [];
    }
    RecipientSplit(recipient);
    var hostName := Split(recipient, '@')[1];
    var client := new SmtpClient(net);
    valid := TryBlock(client, recipient, sender, dns(hostName));
    // the finally block: an IOException from disconnect is only logged
    var closed := client.Disconnect();
    query := Some(hostName);
    calls := client.calls;
  }

  /** `isEmailValid(recipient)`: the same probe presenting `abc@qq.com`. */
  method IsEmailValid(recipient: string, dns: string -> Resolution, net: Network)
    returns (valid: bool, query: Option<string>, calls: seq<Call>)
    ensures Probe(valid, query, calls) == Expected(recipient, DefaultSender, dns, net)
    ensures forall k :: 0 <= k < |calls| ==>
      (calls[k].Login? ==> calls[k].hostname == DefaultLocal) &&
      (calls[k].SetSender? ==> calls[k].address == DefaultLocal + "@mail." + DefaultDomain)
  {
    valid, query, calls := IsEmailValidWithSender(recipient, DefaultSender, dns, net);
    SenderDerivation(recipient, DefaultSender, dns, net);
    DefaultSenderIdentity();
  }

  // ---------------------------------------------------------------------
  // Properties of the probe

  /** The commands make no connect or disconnect; HELO presents the sender's
      first field, MAIL FROM the synthetic sender; the block answers true
      exactly when its last call is RCPT TO the recipient answered with 250. */
  lemma CommandsShape(recipient: string, sender: string, connected: bool, net: Network)
    ensures var c := Commands(recipient, sender, connected, net);
      && (c.valid <==> c.calls != [] && c.calls[|c.calls| - 1] == Call.AddRecipient(recipient, Reply(ReplyCodeSuccess)))
      && (forall m :: 0 <= m < |c.calls| ==> !c.calls[m].Connect? && !c.calls[m].Disconnect?)
      && (forall m :: 0 <= m < |c.calls| ==> SenderCall(sender, c.calls[m]))
  {
  }

  /** HELO presents the sender's first field and MAIL FROM the synthetic sender. */
  predicate SenderCall(sender: string, c: Call) {
    && (c.Login? ==> |Split(sender, '@')| >= 1 && c.hostname == Split(sender, '@')[0])
    && (c.SetSender? ==> FromEmail(sender) == Some(c.address))
  }

  /** The try block answers true exactly when its last call is RCPT TO the
      recipient answered with 250. */
  lemma BodyDecision(recipient: string, sender: string, answer: Resolution, net: Network)
    ensures var b := Body(recipient, sender, answer, net);
      b.valid <==> b.calls != [] && b.calls[|b.calls| - 1] == Call.AddRecipient(recipient, Reply(ReplyCodeSuccess))
  {
    match answer
    case Unresolved =>
    case Resolved(hosts) =>
      var a := Scan(hosts, net, 0);
      ScanCalls(hosts, net, 0);
      if a.stop != Aborted {
        var c := Commands(recipient, sender, a.stop.Selected?, net);
        CommandsShape(recipient, sender, a.stop.Selected?, net);
        var calls := a.calls + c.calls;
        if c.calls == [] {
          assert calls == a.calls;
          if a.calls != [] { assert LoopCall(a.calls, |a.calls| - 1); }
        } else {
          assert calls[|calls| - 1] == c.calls[|c.calls| - 1];
        }
      } else if a.calls != [] {
        assert LoopCall(a.calls, |a.calls| - 1);
      }
  }

  /** The loop's calls followed by the commands' calls: every disconnect
      closes a host whose greeting was not 2xx, right after connecting to it,
      and HELO and MAIL FROM present what the sender gives. */
  lemma LoopThenCommands(sender: string, loop: seq<Call>, commands: seq<Call>)
    requires forall k :: 0 <= k < |loop| ==> LoopCall(loop, k)
    requires forall m :: 0 <= m < |commands| ==> !commands[m].Disconnect? && SenderCall(sender, commands[m])
    ensures forall k :: 0 <= k < |loop + commands| ==>
      ClosesRejected(loop + commands, k) && SenderCall(sender, (loop + commands)[k])
  {
    var calls := loop + commands;
    forall k | 0 <= k < |calls| ensures ClosesRejected(calls, k) && SenderCall(sender, calls[k]) {
      if k < |loop| {
        assert calls[k] == loop[k];
        assert LoopCall(loop, k);
        if k > 0 { assert calls[k - 1] == loop[k - 1]; }
      } else {
        assert calls[k] == commands[k - |loop|];
      }
    }
  }

  /** Every disconnect of the try block closes a host whose greeting was not
      2xx, right after connecting to it, and HELO and MAIL FROM present what
      the sender gives. */
  lemma BodyCalls(recipient: string, sender: string, answer: Resolution, net: Network)
    ensures var b := Body(recipient, sender, answer, net);
      forall k :: 0 <= k < |b.calls| ==> ClosesRejected(b.calls, k) && SenderCall(sender, b.calls[k])
  {
    match answer
    case Unresolved =>
    case Resolved(hosts) =>
      var a := Scan(hosts, net, 0);
      ScanCalls(hosts, net, 0);
      if a.stop != Aborted {
        var c := Commands(recipient, sender, a.stop.Selected?, net);
        CommandsShape(recipient, sender, a.stop.Selected?, net);
        LoopThenCommands(sender, a.calls, c.calls);
      } else {
        LoopThenCommands(sender, a.calls, []);
        assert a.calls + [] == a.calls;
      }
  }

  /** The result is true exactly when the recipient is accepted and the call
      just before the final disconnect is RCPT TO the recipient answered
      with 250; any other code, 251 included, gives false. */
  lemma DecidedByRecipientReply(recipient: string, sender: string, dns: string -> Resolution, net: Network)
    ensures var p := Expected(recipient, sender, dns, net);
      p.valid <==> Matches(recipient) && |p.calls| >= 2
                   && p.calls[|p.calls| - 2] == Call.AddRecipient(recipient, Reply(ReplyCodeSuccess))
  {
    if Matches(recipient) {
      var b := Body(recipient, sender, dns(RecipientDomain(recipient)), net);
      BodyDecision(recipient, sender, dns(RecipientDomain(recipient)), net);
      var p := Expected(recipient, sender, dns, net);
      assert p.calls == b.calls + [Call.Disconnect(net.hangupFails(Hangups(b.calls)))];
      if b.calls != [] {
        assert p.calls[|p.calls| - 2] == b.calls[|b.calls| - 1];
      }
    }
  }

  /** The call threw: a connect or command that raised, or a disconnect that
      failed. */
  predicate Threw(c: Call) {
    match c
    case Connect(_, g) => g.Raised?
    case Disconnect(failed) => failed
    case Login(_, o) => o.Raised?
    case SetSender(_, o) => o.Raised?
    case AddRecipient(_, o) => o.Raised?
  }

  /** A loop that does not end aborted threw nowhere. */
  lemma {:induction false} ScanNoThrow(hosts: seq<string>, net: Network, i: nat)
    requires i <= |hosts|
    ensures Scan(hosts, net, i).stop != Aborted ==>
      forall k :: 0 <= k < |Scan(hosts, net, i).calls| ==> !Threw(Scan(hosts, net, i).calls[k])
    decreases |hosts| - i
  {
    if i < |hosts| {
      var g := net.greeting(i);
      if g.Reply? && !IsPositiveCompletion(g.code) && !net.hangupFails(i) {
        ScanNoThrow(hosts, net, i + 1);
        var rest := Scan(hosts, net, i + 1).calls;
        var c := Scan(hosts, net, i).calls;
        assert c == [Call.Connect(hosts[i], g), Call.Disconnect(false)] + rest;
        assert Scan(hosts, net, i + 1).stop == Scan(hosts, net, i).stop;
        forall k | 0 <= k < |c| ensures Scan(hosts, net, i).stop != Aborted ==> !Threw(c[k]) {
          if k >= 2 { assert c[k] == rest[k - 2]; }
        }
      }
    }
  }

  /** Every exception before the finally block gives false: when a connect,
      a disconnect of the loop or a command threw, the result is false. */
  lemma ExceptionsGiveFalse(recipient: string, sender: string, dns: string -> Resolution, net: Network)
    ensures var p := Expected(recipient, sender, dns, net);
      (exists k :: 0 <= k < |p.calls| - 1 && Threw(p.calls[k])) ==> !p.valid
  {
    var p := Expected(recipient, sender, dns, net);
    if Matches(recipient) && p.valid {
      var answer := dns(RecipientDomain(recipient));
      var b := Body(recipient, sender, answer, net);
      var a := Scan(answer.hosts, net, 0);
      assert a.stop != Aborted;
      ScanNoThrow(answer.hosts, net, 0);
      var c := Commands(recipient, sender, a.stop.Selected?, net);
      assert b.calls == a.calls + c.calls;
      assert p.calls == b.calls + [Call.Disconnect(net.hangupFails(Hangups(b.calls)))];
      forall k | 0 <= k < |p.calls| - 1 ensures !Threw(p.calls[k]) {
        if k < |a.calls| {
          assert p.calls[k] == a.calls[k];
        } else {
          assert p.calls[k] == c.calls[k - |a.calls|];
        }
      }
    }
  }

  /** Only the reply to RCPT TO decides: any reply codes to HELO and MAIL FROM
      leave the result unchanged, as long as those commands do not throw. */
  lemma EarlierRepliesIgnored(recipient: string, sender: string, dns: string -> Resolution, net: Network,
                              helo1: int, mailFrom1: int, helo2: int, mailFrom2: int)
    ensures Expected(recipient, sender, dns, net.(helo := Reply(helo1), mailFrom := Reply(mailFrom1))).valid
         == Expected(recipient, sender, dns, net.(helo := Reply(helo2), mailFrom := Reply(mailFrom2))).valid
  {
    var n1 := net.(helo := Reply(helo1), mailFrom := Reply(mailFrom1));
    var n2 := net.(helo := Reply(helo2), mailFrom := Reply(mailFrom2));
    if Matches(recipient) {
      match dns(RecipientDomain(recipient))
      case Unresolved =>
      case Resolved(hosts) =>
        SameLoop(hosts, n1, n2, 0);
    }
  }

  /** Two networks that agree on greetings and disconnects give the same loop. */
  lemma {:induction false} SameLoop(hosts: seq<string>, net: Network, other: Network, i: nat)
    requires i <= |hosts|
    requires net.greeting == other.greeting && net.hangupFails == other.hangupFails
    ensures Scan(hosts, net, i) == Scan(hosts, other, i)
    decreases |hosts| - i
  {
    if i < |hosts| {
      SameLoop(hosts, net, other, i + 1);
    }
  }

  /** Connected to a host, and with a sender of two fields or more, the result
      is exactly whether RCPT TO is answered with 250. */
  lemma ConnectedDecision(recipient: string, sender: string, dns: string -> Resolution, net: Network, helo: int, mailFrom: int)
    requires Matches(recipient)
    requires dns(RecipientDomain(recipient)).Resolved?
    requires Scan(dns(RecipientDomain(recipient)).hosts, net, 0).stop.Selected?
    requires |Split(sender, '@')| >= 2
    requires net.helo == Reply(helo) && net.mailFrom == Reply(mailFrom)
    ensures Expected(recipient, sender, dns, net).valid <==> net.rcptTo == Reply(ReplyCodeSuccess)
  {
  }

  /** When every host is passed over, the code still issues its commands on a
      client that is not connected; the result is then whatever those
      commands give there: true only if that is a 250 reply and the sender
      has two fields. */
  lemma ExhaustedFallthrough(recipient: string, sender: string, dns: string -> Resolution, net: Network)
    requires Matches(recipient)
    requires dns(RecipientDomain(recipient)).Resolved?
    requires forall j :: 0 <= j < |dns(RecipientDomain(recipient)).hosts| ==> Rejects(net, j)
    ensures Expected(recipient, sender, dns, net).valid <==>
              FromEmail(sender).Some? && net.offline == Reply(ReplyCodeSuccess)
  {
    ExhaustsOnlyIfAllRejected(dns(RecipientDomain(recipient)).hosts, net);
  }

  /** A sender with fewer than two `@`-fields (no `@`, or only `@`s after the
      first one) makes an index fail: the result is false. */
  lemma ShortSenderFails(recipient: string, sender: string, dns: string -> Resolution, net: Network)
    requires forall i, j :: 0 <= i < j < |sender| && sender[i] == '@' ==> sender[j] == '@'
    ensures !Expected(recipient, sender, dns, net).valid
  {
    SplitTwoFields(sender, '@');
  }

  /** HELO presents the sender's first field and MAIL FROM the synthetic
      sender, whenever they are issued. */
  lemma SenderDerivation(recipient: string, sender: string, dns: string -> Resolution, net: Network)
    ensures var calls := Expected(recipient, sender, dns, net).calls;
      forall k :: 0 <= k < |calls| ==>
        (calls[k].Login? ==> |Split(sender, '@')| >= 1 && calls[k].hostname == Split(sender, '@')[0]) &&
        (calls[k].SetSender? ==> FromEmail(sender) == Some(calls[k].address))
  {
    if Matches(recipient) {
      var b := Body(recipient, sender, dns(RecipientDomain(recipient)), net);
      BodyCalls(recipient, sender, dns(RecipientDomain(recipient)), net);
      var calls := Expected(recipient, sender, dns, net).calls;
      assert calls == b.calls + [Call.Disconnect(net.hangupFails(Hangups(b.calls)))];
      forall k | 0 <= k < |calls|
        ensures (calls[k].Login? ==> |Split(sender, '@')| >= 1 && calls[k].hostname == Split(sender, '@')[0])
        ensures (calls[k].SetSender? ==> FromEmail(sender) == Some(calls[k].address))
      {
        if k < |b.calls| {
          assert calls[k] == b.calls[k];
          assert SenderCall(sender, b.calls[k]);
        }
      }
    }
  }

  /** Besides the final disconnect of the finally block, the probe
      disconnects only from hosts whose greeting was not 2xx, right after
      connecting to them. */
  lemma DisconnectsFollowRejections(recipient: string, sender: string, dns: string -> Resolution, net: Network)
    requires Matches(recipient)
    ensures var calls := Expected(recipient, sender, dns, net).calls;
      && calls != [] && calls[|calls| - 1].Disconnect?
      && forall k :: 0 <= k < |calls| - 1 && calls[k].Disconnect? ==> k > 0 && IsRejectedConnect(calls[k - 1])
  {
    var b := Body(recipient, sender, dns(RecipientDomain(recipient)), net);
    BodyCalls(recipient, sender, dns(RecipientDomain(recipient)), net);
    var calls := Expected(recipient, sender, dns, net).calls;
    assert calls == b.calls + [Call.Disconnect(net.hangupFails(Hangups(b.calls)))];
    forall k | 0 <= k < |calls| - 1 && calls[k].Disconnect? ensures k > 0 && IsRejectedConnect(calls[k - 1]) {
      assert calls[k] == b.calls[k];
      assert ClosesRejected(b.calls, k);
      if k > 0 { assert calls[k - 1] == b.calls[k - 1]; }
    }
  }

  /** The try block reads the disconnect oracle only for the disconnects it
      performs. */
  lemma BodyReadsOwnHangups(recipient: string, sender: string, answer: Resolution, net: Network, other: Network)
    requires forall k :: net.greeting(k) == other.greeting(k)
    requires net.helo == other.helo && net.mailFrom == other.mailFrom
    requires net.rcptTo == other.rcptTo && net.offline == other.offline
    requires forall k: nat :: k < Hangups(Body(recipient, sender, answer, net).calls) ==> net.hangupFails(k) == other.hangupFails(k)
    ensures Body(recipient, sender, answer, other) == Body(recipient, sender, answer, net)
  {
    match answer
    case Unresolved =>
    case Resolved(hosts) =>
      var a := Scan(hosts, net, 0);
      if a.stop != Aborted {
        var c := Commands(recipient, sender, a.stop.Selected?, net);
        HangupsAppend(a.calls, c.calls);
      }
      ScanReadsOwnHangups(hosts, net, other, 0);
  }

  /** An IOException from the finally block's disconnect never changes the
      result: whatever that one disconnect does, the result is the same. */
  lemma CleanupNeverDecides(recipient: string, sender: string, dns: string -> Resolution, net: Network, fails: bool)
    requires Matches(recipient)
    ensures var last := Hangups(Expected(recipient, sender, dns, net).calls) - 1;
      var other := net.(hangupFails := (k: nat) => if k == last then fails else net.hangupFails(k));
      Expected(recipient, sender, dns, other).valid == Expected(recipient, sender, dns, net).valid
  {
    var answer := dns(RecipientDomain(recipient));
    var b := Body(recipient, sender, answer, net);
    var final := [Call.Disconnect(net.hangupFails(Hangups(b.calls)))];
    HangupsAppend(b.calls, final);
    assert final[..0] == [];
    var last := Hangups(b.calls + final) - 1;
    assert last == Hangups(b.calls);
    var other := net.(hangupFails := (k: nat) => if k == last then fails else net.hangupFails(k));
    BodyReadsOwnHangups(recipient, sender, answer, net, other);
  }
}
