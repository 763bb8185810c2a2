# Email address probe (`VerifyUtils.isEmailValid`)

A Dafny model of the e-mail address check of `xingxunlei/email-verify`. The
check works in four steps:

1. It tests the recipient against the fixed pattern
   `[\w\.\-]+@([\w\-]+\.)+[\w\-]+`.
2. It takes the part after the `@` as the domain and looks up that domain's
   MX hosts.
3. It connects to the first host, in resolver order, whose greeting is a
   positive completion. Each host it passes over is disconnected first.
4. It sends HELO with the sender's local part, then MAIL FROM
   `local@mail.<sender domain>`, then RCPT TO with the recipient. It answers
   true exactly when the reply code to RCPT TO is 250.

Every exception gives false, and the `finally` block disconnects the client
on every exit path after the pattern check.

The model has four modules, one file each:

- `email_pattern.dfy` (`EmailPattern`): a recognizer for the pattern,
  written as a left-to-right automaton over characters. `\w` without flags
  is `[A-Za-z0-9_]`. The module proves the recognizer sound and complete
  against a decomposition: local part, `@`, and two or more labels joined by
  dots. It also proves that an accepted string has exactly one `@`, a
  non-empty local part, and a dotted domain.
- `java_split.dfy` (`JavaSplit`): Java's `String.split` on a
  one-character separator with limit 0. A string with no separator comes
  back whole. Otherwise the string is cut at every separator and trailing
  empty fields are removed.
- `smtp.dfy` (`Smtp`): the part of commons-net's `SMTPClient` the probe
  uses. It is a class with a connection flag, the last reply code, counters
  and a log of every call.
  - Every reply code and every exception comes from an oracle `Network`.
  - `greeting(k)` is what the k-th connect gives.
  - `hangupFails(k)` says whether the k-th disconnect throws.
  - `helo`, `mailFrom` and `rcptTo` are the connected server's replies.
  - `offline` is whatever a command gives on a client that is not
    connected.
- `verify_utils.dfy` (`VerifyUtils`): both overloads of `isEmailValid`.
  - They are written as methods over the client class: the loop over the
    hosts, the try block with its early returns, and the `finally`
    disconnect.
  - Each method is proved against a specification function, `Expected`. It
    gives the result, the domain queried and the full call log.
  - The lemmas about `Expected` state the properties of the probe.
  - The MX lookup is a parameter `dns: string -> Resolution`. It answers
    `Unresolved` (no SUCCESSFUL result, or an exception while building or
    running the lookup) or the hosts in resolver order.

The probe does not disconnect exactly once per call:

- A recipient that fails the pattern returns before the client is used, so
  there is no disconnect (line 39-42).
- Every host passed over in the loop is disconnected (line 80).
- The `finally` block then disconnects once more (line 109).

`DisconnectsFollowRejections` states the actual pattern.

## Model

| member | source | states |
|---|---|---|
| EmailPattern.MatchesSound | src/main/java/com/xingxunlei/email/verify/utils/VerifyUtils.java:20 | every accepted string is a non-empty `[A-Za-z0-9_.-]` local part, `@`, and at least two non-empty `[A-Za-z0-9_-]` labels joined by dots |
| EmailPattern.MatchesComplete | src/main/java/com/xingxunlei/email/verify/utils/VerifyUtils.java:20 | every such local part, `@` and two or more labels joined by dots is accepted |
| EmailPattern.Characterize | src/main/java/com/xingxunlei/email/verify/utils/VerifyUtils.java:20 | the shape of the prefix read so far for each state of the recognizer (empty, local part, after `@`, first label, after a dot, complete domain) |
| EmailPattern.AcceptedShape | src/main/java/com/xingxunlei/email/verify/utils/VerifyUtils.java:20 | an accepted string has exactly one `@`, a non-empty local part before it, and after it a domain that contains a dot and has no leading, trailing or doubled dot |
| JavaSplit.Fields | src/main/java/com/xingxunlei/email/verify/utils/VerifyUtils.java:43 | cutting at every separator always gives at least one field |
| JavaSplit.DropTrailingEmpty | src/main/java/com/xingxunlei/email/verify/utils/VerifyUtils.java:85 | the limit-0 result is a prefix of the fields, ends in a non-empty field or is empty, and only empty fields were removed |
| JavaSplit.JoinFields | src/main/java/com/xingxunlei/email/verify/utils/VerifyUtils.java:43 | joining the fields with the separator gives back the string |
| JavaSplit.FieldsFree | src/main/java/com/xingxunlei/email/verify/utils/VerifyUtils.java:43 | no field contains the separator |
| JavaSplit.FieldsAllEmpty | src/main/java/com/xingxunlei/email/verify/utils/VerifyUtils.java:91 | all fields are empty exactly when the string is made only of separators |
| JavaSplit.SplitOne | src/main/java/com/xingxunlei/email/verify/utils/VerifyUtils.java:43 | one separator between two separator-free parts, the second non-empty, splits into exactly those two parts |
| JavaSplit.SplitTwoFields | src/main/java/com/xingxunlei/email/verify/utils/VerifyUtils.java:91 | the split has at least two fields, so that index 1 exists, exactly when some non-separator follows a separator |
| Smtp.SmtpClient.constructor | src/main/java/com/xingxunlei/email/verify/utils/VerifyUtils.java:45 | a new client is not connected and has made no call |
| Smtp.SmtpClient.Connect | src/main/java/com/xingxunlei/email/verify/utils/VerifyUtils.java:67 | a connect logs the greeting of that attempt; it connects and sets the reply code when the greeting is a reply, and throws otherwise |
| Smtp.SmtpClient.Disconnect | src/main/java/com/xingxunlei/email/verify/utils/VerifyUtils.java:80 | a disconnect logs whether it threw, and the client is disconnected either way with its reply code unchanged |
| Smtp.SmtpClient.Login | src/main/java/com/xingxunlei/email/verify/utils/VerifyUtils.java:86 | HELO logs its outcome (the server's reply when connected, the offline outcome otherwise) and updates the reply code on a reply |
| Smtp.SmtpClient.SetSender | src/main/java/com/xingxunlei/email/verify/utils/VerifyUtils.java:93 | MAIL FROM, likewise |
| Smtp.SmtpClient.AddRecipient | src/main/java/com/xingxunlei/email/verify/utils/VerifyUtils.java:98 | RCPT TO, likewise |
| VerifyUtils.RecipientSplit | src/main/java/com/xingxunlei/email/verify/utils/VerifyUtils.java:43 | for an accepted recipient, `split("@")` has exactly two fields: the text before and the text after its only `@` |
| VerifyUtils.RecipientDomain | src/main/java/com/xingxunlei/email/verify/utils/VerifyUtils.java:43 | the looked-up domain is the whole text after the recipient's only `@`, and it is a dotted domain |
| VerifyUtils.FromEmail | src/main/java/com/xingxunlei/email/verify/utils/VerifyUtils.java:85-92 | the synthetic sender exists (field 1 can be indexed) exactly when some non-`@` follows an `@` in the sender |
| VerifyUtils.FromEmailOf | src/main/java/com/xingxunlei/email/verify/utils/VerifyUtils.java:85-92 | a sender `local@domain` with `@`-free parts and a non-empty domain gives HELO `local` and MAIL FROM `local@mail.domain` |
| VerifyUtils.DefaultSenderIdentity | src/main/java/com/xingxunlei/email/verify/utils/VerifyUtils.java:28-30 | the default sender `abc@qq.com` splits into `abc` and `qq.com` and gives `abc@mail.qq.com` |
| VerifyUtils.TriedInOrder | src/main/java/com/xingxunlei/email/verify/utils/VerifyUtils.java:57-81 | hosts that are passed over are connected to in resolver order, each disconnected before the next is tried |
| VerifyUtils.FirstAcceptingHost | src/main/java/com/xingxunlei/email/verify/utils/VerifyUtils.java:57-81 | the loop settles on host i exactly when i is the first host with a 2xx greeting and every earlier host was passed over cleanly; the calls are then the earlier hosts' connect and disconnect pairs followed by the connect to i |
| VerifyUtils.ExhaustsOnlyIfAllRejected | src/main/java/com/xingxunlei/email/verify/utils/VerifyUtils.java:57-82 | the loop runs past the last host exactly when every host is passed over, and then it has made exactly those connect and disconnect pairs |
| VerifyUtils.ScanCalls | src/main/java/com/xingxunlei/email/verify/utils/VerifyUtils.java:57-81 | the loop makes only connects and disconnects, and each disconnect directly follows a connect whose greeting was not 2xx |
| VerifyUtils.ConnectFirstAccepting | src/main/java/com/xingxunlei/email/verify/utils/VerifyUtils.java:57-81 | the loop on the client makes exactly the calls of the loop specification, stops where it does, and is connected exactly when a host was selected |
| VerifyUtils.IssueCommands | src/main/java/com/xingxunlei/email/verify/utils/VerifyUtils.java:85-103 | HELO, MAIL FROM and RCPT TO issued as the command specification says, including the index failures and exceptions that end the block early |
| VerifyUtils.TryBlock | src/main/java/com/xingxunlei/email/verify/utils/VerifyUtils.java:46-106 | the try block on the client gives the result and the calls of its specification: false on a failed lookup or an aborted loop, otherwise the commands' decision |
| VerifyUtils.IsEmailValidWithSender | src/main/java/com/xingxunlei/email/verify/utils/VerifyUtils.java:38-114 | the result, query and calls equal the specification; a malformed recipient gives false with no lookup and no call; otherwise the recipient's domain is queried and the last call is a disconnect; a failed lookup gives false and a single disconnect |
| VerifyUtils.IsEmailValid | src/main/java/com/xingxunlei/email/verify/utils/VerifyUtils.java:28-30 | the one-argument overload is the probe with sender `abc@qq.com`, so HELO presents `abc` and MAIL FROM `abc@mail.qq.com` |
| VerifyUtils.CommandsShape | src/main/java/com/xingxunlei/email/verify/utils/VerifyUtils.java:85-103 | the commands make no connect or disconnect, present the sender's fields, and answer true exactly when their last call is RCPT TO the recipient answered with 250 |
| VerifyUtils.BodyDecision | src/main/java/com/xingxunlei/email/verify/utils/VerifyUtils.java:46-106 | the try block answers true exactly when its last call is RCPT TO the recipient answered with 250 |
| VerifyUtils.BodyCalls | src/main/java/com/xingxunlei/email/verify/utils/VerifyUtils.java:57-93 | in the try block every disconnect closes a host whose greeting was not 2xx, and HELO and MAIL FROM present what the sender gives |
| VerifyUtils.DecidedByRecipientReply | src/main/java/com/xingxunlei/email/verify/utils/VerifyUtils.java:98-103 | the result is true exactly when the recipient is accepted and the call just before the final disconnect is RCPT TO the recipient answered with exactly 250; any other code, 251 included, gives false |
| VerifyUtils.EarlierRepliesIgnored | src/main/java/com/xingxunlei/email/verify/utils/VerifyUtils.java:86-103 | the reply codes to HELO and MAIL FROM do not change the result, as long as those commands do not throw |
| VerifyUtils.ConnectedDecision | src/main/java/com/xingxunlei/email/verify/utils/VerifyUtils.java:86-103 | connected to a selected host, with a sender of two fields and non-throwing HELO and MAIL FROM, the result is exactly whether RCPT TO is answered with 250 |
| VerifyUtils.ScanNoThrow | src/main/java/com/xingxunlei/email/verify/utils/VerifyUtils.java:57-81 | a loop that does not end in an exception threw nowhere |
| VerifyUtils.ExceptionsGiveFalse | src/main/java/com/xingxunlei/email/verify/utils/VerifyUtils.java:104-106 | when any connect, loop disconnect or command throws, the result is false |
| VerifyUtils.ExhaustedFallthrough | src/main/java/com/xingxunlei/email/verify/utils/VerifyUtils.java:82-86 | when every host is passed over, the commands still run on the client that is not connected, and the result is true only if the sender has two fields and the offline outcome is a 250 reply |
| VerifyUtils.ShortSenderFails | src/main/java/com/xingxunlei/email/verify/utils/VerifyUtils.java:85-93 | a sender with fewer than two `@`-fields (no `@`, or only `@`s after the first one) gives false |
| VerifyUtils.SenderDerivation | src/main/java/com/xingxunlei/email/verify/utils/VerifyUtils.java:85-93 | every HELO of the probe presents the sender's first field and every MAIL FROM the synthetic sender |
| VerifyUtils.DisconnectsFollowRejections | src/main/java/com/xingxunlei/email/verify/utils/VerifyUtils.java:80-109 | for an accepted recipient the last call is the finally block's disconnect, and every earlier disconnect directly follows a connect whose greeting was not 2xx |
| VerifyUtils.BodyReadsOwnHangups | src/main/java/com/xingxunlei/email/verify/utils/VerifyUtils.java:57-106 | the try block depends on the disconnect oracle only for the disconnects it performs itself |
| VerifyUtils.CleanupNeverDecides | src/main/java/com/xingxunlei/email/verify/utils/VerifyUtils.java:107-113 | whether or not the finally block's disconnect throws, the result is the same |

## Left out

- DNS resolution itself (dnsjava `Lookup`, `Record.getAdditionalName`) becomes the `dns` parameter. The answer is either unresolved or the ordered host names.
- The SMTP wire protocol, sockets, port 25 and timeouts are not modelled. Every reply and exception of `connect`, `login`, `setSender`, `addRecipient` and `disconnect` comes from the `Network` oracle.
- The replies to HELO, MAIL FROM and RCPT TO are one value each per network. The model does not vary them between sessions, but the probe opens at most one session that issues commands.
- What commons-net does with a command on a client that is not connected is not part of this model. It is the open `offline` outcome, and `ExhaustedFallthrough` states the result in terms of it without fixing it.
- HELO, MAIL FROM and RCPT TO on a client that is not connected all get the same `offline` outcome; `ExhaustedFallthrough`'s equivalence depends on that single outcome.
- `Reply(code)` stands for any reply code the library returns without throwing. Replies the library itself turns into exceptions (such as a closed connection signalled by 421) are meant to be given as `Raised`; the oracle does not exclude `Reply(421)`, so the lemmas also cover codes the real client may never return.
- The results of `Login`, `SetSender` and `AddRecipient` in the model say whether the call threw, not whether the reply was a positive completion; the probe ignores the library's boolean.
- A `RuntimeException` from the finally block's `disconnect` is not modelled; it would not be caught there. Only the `IOException` that line 110 catches is.
- Logging and `printStackTrace` are not modelled; they are output only.
- `null` arguments are not modelled. In Java they throw `NullPointerException` before the try block for the recipient, and inside it for the sender.
- `SMTPReply.isPositiveCompletion` is taken as the codes 200 to 299, "every code beginning with a 2". The library's own source is not part of this model.
- There is no general regular-expression engine. Only the one fixed pattern has a recognizer.
- Java `char` is a UTF-16 code unit; Dafny's `char` is used in its place. The pattern's classes are all ASCII, so nothing depends on the difference.
