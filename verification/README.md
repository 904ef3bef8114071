# Verified models of the remote-control RPC server and its client

The repository is a remote-control daemon: a GLib program that exposes a device over RPC
(`src/rcrpc`), a client library (`src/rcrpc-client`) and an interactive client (`bin`). This
project models its stateful and algorithmic cores in Dafny and proves what they promise.

| file | what it models |
|---|---|
| `IrqProtocol.dfy` | the interrupt protocol as a state machine: pending set, notification count, handset queue, polling client |
| `Irq.dfy` | the server's 32-bit status word and its callbacks, proved to take the protocol's steps |
| `IrqPoll.dfy` | the client command `irq-poll`, with device events arriving between its remote calls |
| `Shell.dfy` | quote stripping, tokens, the command line `task-exec` builds, and how they relate |
| `ShellCode.dfy` | the loops that compute these, over C strings and fixed buffers |
| `Cli.dfy` | `shell_parse` filling vectors on the C heap, the command vector's ownership, whole sessions |
| `Completion.dfy` | the readline generator with its static variables |
| `RpcSource.dfy` | the GLib source: prepare, check and dispatch over four states and the poll set |
| `Gpio.dfy` | a pin set through a whole-port mask, with per-pin failures |
| `Net.dfy` | UDP channel ownership and the timed read |
| `HexDump.dfy` | the hex dump printer and a reader that undoes it |
| `Word.dfy`, `Wrappers.dfy` | 32-bit words as bit sets; `Option`, errno numbers and `Min` |

Code that changes state is written as classes and methods. Each method is proved equal to a step
or function of a mathematical model, and the properties are proved of that model for all runs.

## Results in brief

Interrupts.
- In every reachable state each pending source the client can see is still ahead of it in the
  current sweep or covered by an undelivered notification. Hence, under every interleaving, the
  source of any event other than IO is queried in the sweep at hand or the next one, and when a
  run comes to rest every handset key has been handed out once, in order.
- Undisturbed, the visible mask is empty after exactly k + 1 sweeps for k queued keys, and the
  system comes to rest after one sweep per notification and per key.
- The handset query that finds the queue empty still answers success with an all-zero word
  (src/rcrpc/irq.c:117-121, 425-428), which is the word of a released key 0. One press reads as
  two words. Dropping zero words recovers the keys if and only if no key packs to zero.
- A source the update does not know gets -ENOSYS, which the result of the notification then
  overwrites (src/rcrpc/irq.c:143-149).

Command lines.
- `unquote` does not reset its quote state between its counting and its copying loop
  (bin/main.c:216-220). On unbalanced input with both kinds of quote the copying loop can write
  past the buffer (`""'`) or give the wrong text (`"a'b`). It writes past the buffer if and only
  if fewer of the string's quote characters act as delimiters when read with the quote left open
  than when read from the start; a line does so if and only if its last token does, and such a
  line is unbalanced and has both kinds of quote. After such a write C promises nothing, and the
  theorems about the heap and about sessions promise nothing either.
- The text `unquote` makes is right on every string with a given sequence of quote characters if
  and only if that sequence is balanced or of one kind; the same condition decides whether
  `shell_parse` is the one-pass tokenizer. Single strings outside it can come out right by
  accident (`""'""`), so the condition is on the quotes, which a caller can inspect, and not on
  the surrounding text.
- The command line `task-exec` builds is parsed back to the same arguments if and only if each is
  non-empty, has no single quote, and has a double quote only together with whitespace.
- A line of nothing but whitespace has the program compare a command name that is a NULL pointer
  (bin/main.c:316, 509-514), which C leaves undefined; it happens for no other line.
- A session goes wrong if and only if it reads a line of one of these two kinds. Otherwise every
  string and vector is freed exactly once.

Connections.
- Under any interleaving of the callbacks the client descriptor is polled exactly once when idle
  and not at all when unconnected or connected, and every successful receive of an idle source
  yields one packet, dispatched once and freed once.
- `poll_client.revents` survives the connection (src/rcrpc/rcrpc.c:98-103, 125-134). The model
  says exactly when this makes the source call accept without a readable listening socket - after
  every orderly close - and that a hang-up is reported anew in every turn. A readable listening
  socket in turn makes it receive from a client that may have sent nothing.

Other cores.
- Setting a GPIO pin changes that pin only, when no backend call fails; two clients that read
  before either writes lose an update exactly when the first one changed its pin.
- Channels are never leaked or destroyed twice; the timed read is the first non-zero receive of
  timeout / 5 + 1 attempts.
- A hex dump can be read back to the bytes it was made from.

## Assumptions about the surroundings

- The EVENT_SOURCE_* numbers are distinct bit positions below 32; their header is not part of
  this model.
- Sending `irq_event` succeeds and raises a count of undelivered notifications. There is one
  client; it makes one sweep per notification, and its mask and info calls reach the server.
- A handset key is queued and its callback runs in one step; asking for the handset state pops
  the queue or returns -ENODATA; the queue is empty when the server starts.
- `isspace` is some set of characters that contains the blank and contains neither quote, nor
  NUL, nor the letter x.
- Allocation succeeds and returns a fresh address.
- There are at most 32 GPIO pins; a remote call that fails does not reach the server.
- Channel references are positive and never reused, destroying reference 0 does nothing, and
  there is one UDP object.
- Removing a descriptor that is not polled does nothing; a poll reports on the client only while
  it is registered.
- A log call at error level returns. GLib keeps that level always fatal, so no ordinary program
  goes on after a failing accept or client socket call (src/rcrpc/rcrpc.c:79-86, 150-156). The
  model thus has behaviours the program lacks, and none fewer: its invariants hold of the
  program.

## Model

| member | source | states |
|---|---|---|
| IrqProtocol.RunKeepsInv | src/rcrpc/irq.c:47-154 | no lost interrupt: over every run of arrivals, wake-ups, mask reads, queries and sweep ends, each visible pending source is ahead of the client or covered by a notification; a non-empty queue keeps the handset pending; keys handed out plus keys queued are the keys pushed |
| IrqProtocol.StepKeepsInv | src/rcrpc/irq.c:47-154 | every single step keeps that invariant, including a query from outside any sweep and an event whose notification is skipped |
| IrqProtocol.RaiseEffect | src/rcrpc/irq.c:56-88 | an event adds its own source and no other, notifies unless its source was the only one pending, and queues the key of a handset event |
| IrqProtocol.EnableWakes | src/rcrpc/irq.c:178-190 | enabling wakes an idle client, and apart from that wake-up changes nothing |
| IrqProtocol.QueryEffect | src/rcrpc/irq.c:115-151 | a query removes its own source and no other, keeps it exactly for IO and for a handset that had a key, and notifies exactly when it left the set unchanged |
| IrqProtocol.QueryKeepsHistory | src/rcrpc/irq.c:115-121 | what a query takes off the queue is what it hands out, in FIFO order |
| IrqProtocol.RaiseKeepsInv | src/rcrpc/irq.c:85-88 | skipping the notification when the source is the only one pending loses nothing |
| IrqProtocol.AdvanceKeepsInv | bin/commands.c:1565-1611 | moving on in the sweep leaves no source behind uncovered |
| IrqProtocol.QuiescentMeansDelivered | src/rcrpc/irq.c:47-154 | when the client idles with no notification outstanding, nothing visible is pending, and the keys handed out are those of the handset events of the run, each once, in order |
| IrqProtocol.PushedAreRaised | src/rcrpc/irq.c:77-88 | the keys queued over a run are those of its handset events, in order |
| IrqProtocol.EveryEventIsQueriedSoon | bin/commands.c:1545-1614 | under every interleaving, an event other than IO is followed by a query of its source before the client has ended two more sweeps, and until then an idle client has a notification to wake it |
| IrqProtocol.QueriedWithinTwoSweeps | bin/commands.c:1565-1611 | a visible pending source is queried in this sweep if the client is still to come to it or is between sweeps, and in the next one at the latest |
| IrqProtocol.EveryEventIsQueried | bin/commands.c:1545-1614 | an event other than IO raised anywhere in a run that comes to rest is followed by a query of its source |
| IrqProtocol.UnqueriedStaysPending | src/rcrpc/irq.c:123-151 | a pending source stays pending until it is queried |
| IrqProtocol.IoIsForever | src/rcrpc/irq.c:123-151 | the IO bit is never cleared, and from then on no event's notification is skipped |
| IrqProtocol.SweepOnce | bin/commands.c:1545-1614 | one undisturbed sweep clears every visible source but a handset with keys left, and hands out the oldest key |
| IrqProtocol.AdvanceToTheEnd | bin/commands.c:1565-1611 | the rest of a sweep from any position clears exactly the masked sources from there on |
| IrqProtocol.DrainsExactly | bin/commands.c:1545-1614 | the visible mask is empty after exactly k + 1 undisturbed sweeps for k queued keys and not before; each sweep pops one key, then one query finds the queue empty |
| IrqProtocol.ComesToRest | bin/commands.c:1545-1614 | from any reachable idle state, one sweep per notification and per key brings the system to rest with everything delivered |
| IrqProtocol.PackRoundTrip | src/rcrpc/irq.c:425-428 | the info word decodes to the pressed flag and the low 16 bits of the keycode, and has no bit above bit 16 |
| IrqProtocol.WireStreamIsFaithful | src/rcrpc/irq.c:415-430 | at rest the non-zero words read are exactly the packed keys produced, if and only if no produced key packs to zero |
| IrqProtocol.OnePressReadsAsTwoWords | src/rcrpc/irq.c:117-121 | one key press makes the client read its word and then the word of a released key 0 |
| Irq.SameWord | src/rcrpc/irq.c:85-85 | within the six known bits, two status words are equal exactly when they have the same sources pending |
| Irq.EventWord | src/rcrpc/irq.c:50-88 | the callback's comparison asks whether its source is the only one pending; or-ing adds that source and keeps to the known bits |
| Irq.QueryWord | src/rcrpc/irq.c:115-151 | clearing a source's bit changes the word exactly when it was pending, and changes no other source |
| Irq.FiveBits | src/rcrpc/irq.c:209-222 | for any status word and any numbering, the five tests set exactly the mask bits of the pending sources other than IO |
| Irq.Translate | src/rcrpc/irq.c:209-210 | one test adds its mask bit exactly when the event's bit is set |
| Irq.PackInfo | src/rcrpc/irq.c:425-428 | the word for a key decodes to the low 16 bits of its keycode and its pressed flag, and has no bit above bit 16 |
| Irq.IrqServer.EventBit | src/rcrpc/irq.c:56-83 | each known source yields its own bit and no other source yields any |
| Irq.IrqServer.constructor | src/rcrpc/irq.c:156-162 | a new server is in the protocol's initial state |
| Irq.IrqServer.EventCb | src/rcrpc/irq.c:47-91 | the callback is the protocol's announcement of its source; no event and an unknown source are refused and change nothing |
| Irq.IrqServer.Deliver | src/rcrpc/irq.c:47-91 | queueing a key and running the callback is one arrival step |
| Irq.IrqServer.SourceWord | src/rcrpc/irq.c:115-146 | the word keeps the bit of a handset that had a key and loses the bit of every other queried source; the key is the oldest one |
| Irq.IrqServer.UpdateFromSource | src/rcrpc/irq.c:102-154 | one update is the protocol's query of its source; without a server -EINVAL; an unknown source only notifies and answers success |
| Irq.IrqServer.IrqEnable | src/rcrpc/irq.c:178-190 | enabling raises one notification and touches nothing else |
| Irq.IrqServer.GetMask | src/rcrpc/irq.c:192-227 | the caller's mask gains one bit for every visible pending source and nothing else; after cleanup -EINVAL and no bit |
| Irq.IrqServer.GetInfo | src/rcrpc/irq.c:229-439 | each source number queries its own source and no other; the handset answers the packed key or zero; unknown numbers are refused, 0 and IO change nothing |
| IrqPoll.PollSource | bin/commands.c:1565-1611 | one loop pass is one advance of the protocol and queries its source exactly when the mask has it |
| IrqPoll.DeliverAll | src/rcrpc/irq.c:47-91 | any burst of events is a run of arrival steps |
| IrqPoll.ExecIrqPoll | bin/commands.c:1545-1614 | with events arriving before every remote call, a poll is a run of the protocol: it queries exactly the sources visible when the mask was read, each once, in table order, and prints the words of the keys its query took |
| IrqPoll.InOrderIs | bin/commands.c:1547-1554 | the sources a poll queries are the visible ones, each once, in table order |
| IrqPoll.RaisesAre | src/rcrpc/irq.c:47-91 | a burst of events is one arrival step for each event, in order |
| IrqPoll.PollStepsAre | bin/commands.c:1559-1613 | a poll's run is every event that arrived, in order, and in between exactly the mask read, the loop's positions and the end of one sweep |
| Shell.UnquotedIsStrip | bin/main.c:194-237 | the two-pass unquote is quote stripping when the quotes are balanced or of one kind, unterminated ones included |
| Shell.OverrunsExactlyWhen | bin/main.c:201-235 | unquote writes past its buffer if and only if fewer of the string's quote characters delimit for the copying loop than for the counting loop; the other characters do not matter |
| Shell.OverrunsAreMixed | bin/main.c:201-235 | balanced quotes, and quotes of one kind, overrun nothing |
| Shell.OnlyTheLastOverruns | bin/main.c:249-279 | of a line's tokens only the last can overrun its buffer, so it takes a vector with room for all |
| Shell.LineOverrunsExactlyWhen | bin/main.c:239-281 | a line overruns a buffer if and only if the quotes of its last token say so, and then it is unbalanced and has both kinds of quote |
| Shell.UnbalancedUnquotes | bin/main.c:216-220 | inputs where the stale quote state overruns the buffer, where it gives the wrong text, and where it is right by accident |
| Shell.MixedGoesWrong | bin/main.c:216-220 | every unbalanced sequence of both quotes occurs in a string that is unquoted wrongly |
| Shell.UnquoteIsRightExactlyWhen | bin/main.c:194-237 | unquote is right for all strings with given quotes if and only if these are balanced or of one kind |
| Shell.SlicesRefineOnePass | bin/main.c:239-281 | slicing tokens and stripping each one is the tokenizer that emits unquoted characters in one pass |
| Shell.SlicesBalanced | bin/main.c:249-266 | every token but the last ends with no quote open; the last ends as the line does |
| Shell.ParsedAlmostTokens | bin/main.c:239-281 | on every line shell_parse finds as many tokens as the one-pass tokenizer, agrees on all but the last, and on that one as far as unquote is right |
| Shell.ParsedIsTokens | bin/main.c:239-281 | on every line with balanced quotes or one kind of quote it is the one-pass tokenizer |
| Shell.ParseIsRightExactlyWhen | bin/main.c:239-281 | it is the one-pass tokenizer for all lines with given quotes if and only if these are balanced or of one kind |
| Shell.NoTokens | bin/main.c:246-281 | a line yields no token exactly when it is all whitespace, and no token is an empty slice |
| Shell.GoodArgsSlice | bin/commands.c:989-1002 | the line built from good arguments is sliced into exactly their quoted forms |
| Shell.RoundTrip | bin/commands.c:989-1002 | building a line from good arguments and parsing it gives the arguments back |
| Shell.RoundTripExactlyWhen | bin/commands.c:989-1002 | for every list of arguments: parsing what was built gives the list back if and only if every argument is good |
| ShellCode.SkipSpaces | bin/main.c:186-192 | it stops at the first character that is not whitespace |
| ShellCode.Unquote | bin/main.c:194-237 | the buffer fits the stripped text; what is written is the text stripped from the leftover quote; it overruns exactly when that is longer, and otherwise the buffer holds it, terminated |
| ShellCode.ShellStrNeedsEscape | bin/utils.c:276-282 | true exactly when some character is whitespace |
| ShellCode.ExactFit | bin/commands.c:979-983 | the computed size is the length of the built line plus one, for every non-empty argument list |
| ShellCode.PrefixFits | bin/commands.c:979-983 | the sizes of prefixes never exceed the whole |
| ShellCode.CommandLineSize | bin/commands.c:979-983 | the first loop computes that size over the arguments after the command's name |
| ShellCode.AppendArgument | bin/commands.c:989-1002 | one pass appends the separator and the argument, quoted if needed, within the buffer |
| ShellCode.ExecTaskExec | bin/commands.c:969-1012 | the buffer sent is exactly the built line and its NUL, filled to the last byte; fewer than two words are refused |
| Cli.ShellParse | bin/main.c:239-281 | it overruns a buffer if and only if the line does and argc leaves room for its last token; otherwise the count is the number of tokens whatever argc is, the first argc slots get the unquoted tokens in new strings, and later slots and everything else on the heap stay |
| Cli.OverrunNeedsRoom | bin/main.c:262-275 | one of the first argc tokens overruns if and only if the line does and argc reaches its last token |
| Cli.StoreToken | bin/main.c:262-263 | a token is stored only while there is room; it overruns exactly when it is stored and its quotes say so, and otherwise the earlier slots stay and its own gets the text |
| Cli.EndToken | bin/main.c:259-266 | at a separator the token is stored and the next one starts at the first character after the spaces |
| Cli.StrFreev | bin/utils.c:263-274 | exactly the strings of the vector and the vector are freed, each once; NULL frees nothing |
| Cli.SliceStrdup | bin/utils.c:242-261 | NULL for an empty range, otherwise a new terminated vector of new copies of the range, in order |
| Cli.OwnedTokens | bin/main.c:295-308 | the filled vector owns every live string and its strings are the tokens |
| Cli.Context.TakeArguments | bin/main.c:445-448 | the client owns copies of the words after the options, or nothing |
| Cli.Context.ParseCommand | bin/main.c:283-309 | the old vector is released; unless the line overruns a buffer, the new one holds exactly the tokens, terminated, and owns all that is live |
| Cli.FillVector | bin/main.c:295-301 | a new vector for the counted tokens is filled completely by the second parse, unless the line overruns a buffer |
| Cli.Context.Release | bin/main.c:287-289 | nothing stays live |
| Cli.Context.Exec | bin/main.c:311-322 | the first command with that name runs, and none if there is none; the slot read for the name is NULL exactly when there is no argument, and then nothing is promised |
| Cli.Context.Free | bin/main.c:344-353 | afterwards every block ever allocated has been freed exactly once |
| Cli.HandleLine | bin/main.c:509-515 | a line overruns exactly when its quotes say so, and reads a NULL command name exactly when it is non-empty and all whitespace; an empty line runs nothing, and any other line runs the first command its first token names, or none if there is none, and leaves the client with its tokens |
| Cli.BlankIsNullCommand | bin/main.c:509-514 | a single blank is such a line |
| Cli.Interact | bin/main.c:504-519 | the loop answers each line with its own command up to the first line that overruns a buffer or reads a NULL command name, and gets through all of them if there is none |
| Cli.Session | bin/main.c:474-530 | over any arguments and any input lines: words after the options run the one command they name; otherwise each line runs its own, in order, up to the first that overruns a buffer or reads a NULL command name; without one, every string and vector is freed exactly once |
| Cli.CleanLines | bin/main.c:239-281 | lines that are empty or not all whitespace, and whose quotes are balanced or of one kind, never break a session, so sessions over them get the full result |
| Completion.SameStartIsPrefix | bin/main.c:80-80 | comparing as many characters as the text has is testing for a prefix |
| Completion.Generator.Generate | bin/main.c:69-87 | each call hands out the next match, in table order; NULL when there is none and from then on |
| Completion.Generator.AllMatches | bin/main.c:69-87 | state 0 and then non-zero states until NULL give exactly the matching names in table order |
| Completion.MatchesCount | bin/main.c:79-84 | each matching name is offered as often as the table has it, and no other name |
| Completion.MatchesAreInOrder | bin/main.c:79-84 | the names offered are a subsequence of the table: those at exactly the places whose name has the prefix, in ascending order |
| RpcSource.RunKeepsInv | src/rcrpc/rcrpc.c:68-218 | under any interleaving: the client is registered once in IDLE, never in UNCONNECTED or CONNECTED, at most once in DISCONNECTED; additions, removals and accepts balance; packets received are dispatched and freed once, in order, and none is live |
| RpcSource.EveryRunIsOrderly | src/rcrpc/rcrpc.c:74-215 | in every reachable state, nothing is added or accepted while a client is polled, and packets are received only in IDLE |
| RpcSource.PhaseMoves | src/rcrpc/rcrpc.c:74-215 | a successful accept leads to CONNECTED, its socket to IDLE, a close to DISCONNECTED, its clean-up or a failing socket call to UNCONNECTED; no other step changes the state |
| RpcSource.PollsTheClient | src/rcrpc/rcrpc.c:78-103 | the descriptor added to the poll set is the client's socket, and it stays until the clean-up takes it out |
| RpcSource.ReceivesExactlyWhen | src/rcrpc/rcrpc.c:177-211 | a step receives, dispatches and frees exactly one new packet for a successful receive in IDLE and none otherwise; the source stops exactly on a receive error other than a reset and on a handler error other than -ENOSYS |
| RpcSource.RunServesEveryRequest | src/rcrpc/rcrpc.c:177-211 | over any run, as many packets are received as there are successful receives in IDLE |
| RpcSource.ServesExactlyWhen | src/rcrpc/rcrpc.c:112-211 | a turn serves a request if and only if a client is polled, the listening socket is not closed, one of the two has news, and the receive succeeds |
| RpcSource.AcceptsExactlyWhen | src/rcrpc/rcrpc.c:112-172 | a turn accepts a client if and only if none is polled, the listening socket is not closed, it or the last client's old readiness says readable, and the accept succeeds |
| RpcSource.OnlyTheSocketLosesClients | src/rcrpc/rcrpc.c:78-93 | in GLib's order, check never finds a connection that is not polled, and only a failing socket call gives one up |
| RpcSource.TurnsLoseNothing | src/rcrpc/rcrpc.c:68-218 | whole runs of turns lose no accepted connection when the socket call succeeds |
| RpcSource.LosesAClientExactlyWhen | src/rcrpc/rcrpc.c:68-137 | in any interleaving, a step gives an accepted connection up if and only if prepare finds no socket for it, or check runs before prepare on a quiet listening socket and a hang-up left over from the last client |
| RpcSource.AcceptsBlindlyExactlyWhen | src/rcrpc/rcrpc.c:98-136 | a turn accepts without a readable listening socket if and only if no client is polled, the listening socket is quiet and the old readiness says readable and not closed |
| RpcSource.ReceivesBlindlyExactlyWhen | src/rcrpc/rcrpc.c:121-134 | a turn receives from a client that reported nothing to read if and only if a client is polled and the listening socket is readable |
| RpcSource.OrderlyCloseMakesItAcceptBlindly | src/rcrpc/rcrpc.c:187-192 | every orderly close is followed by such an accept in the next quiet turn |
| RpcSource.HangupIsReportedAgain | src/rcrpc/rcrpc.c:125-131 | after a hang-up the close is reported once more in every quiet turn |
| RpcSource.Source.Prepare | src/rcrpc/rcrpc.c:68-110 | the callback is the model's prepare step and never asks for an immediate dispatch |
| RpcSource.Source.Check | src/rcrpc/rcrpc.c:112-137 | the callback is the model's check step, with its answer |
| RpcSource.Source.Dispatch | src/rcrpc/rcrpc.c:139-218 | the callback is the model's dispatch step; a received packet is freed once on the success, -ENOSYS and error paths; it is removed exactly on a failed receive or dispatch |
| Gpio.SetChangesOnePin | src/rcrpc-client/gpio.c:18-42 | with no failures, setting a pin sets that pin and leaves every other level |
| Gpio.FailuresFrame | src/rcrpc/io.c:82-95 | with failures, every other writable pin ends at the level read, low if the read failed, and an unwritable pin keeps its level |
| Gpio.SettingsCommute | src/rcrpc-client/gpio.c:18-42 | settings of different pins commute, and the last setting of one pin counts |
| Gpio.RacingClients | src/rcrpc-client/gpio.c:26-37 | two clients reading before either writes get the result of taking turns if and only if the first one's pin already had its level |
| Gpio.GetMask | src/rcrpc/io.c:63-103 | the mask is exactly the pins that read high without failing; a failing count answers a positive number and leaves the mask |
| Gpio.SetMask | src/rcrpc/io.c:27-61 | every pin below the count whose write succeeds gets its mask bit and no other level changes; a failing count writes nothing and answers a positive number |
| Gpio.RemoteGpioSet | src/rcrpc-client/gpio.c:18-42 | the whole read-modify-write with its remote and backend errors; a failing count is reported as its positive number with nothing written |
| Gpio.RemoteGpioGet | src/rcrpc-client/gpio.c:44-59 | 1 exactly when the pin reads high; a failing count reads as low |
| Gpio.SetThenGet | src/rcrpc-client/gpio.c:18-59 | reading a pin back gives what was set, as 0 or 1 |
| Net.RunKeepsInv | src/rcrpc/net.c:95-151 | over any run of init, config and cleanup, failing or not, the open channels are exactly the non-zero ones on record and none is destroyed twice |
| Net.CleanupLeavesNothing | src/rcrpc/net.c:113-121 | after a cleanup every channel ever created was destroyed, each once |
| Net.InitOpensTheSyncChannel | src/rcrpc/net.c:95-111 | an init leaves the synchronous slot with its new channel, or 0 if that failed, and the asynchronous slot 0; nothing else is open |
| Net.ConfigReplacesTheAsyncChannel | src/rcrpc/net.c:123-151 | a configuration closes the old asynchronous channel, puts the new one or 0 in its slot, keeps the synchronous channel, and takes the timeout's low 16 bits; without an init it changes nothing |
| Net.SyncChannelStays | src/rcrpc/net.c:123-151 | the synchronous channel stays open through any number of configurations |
| Net.InitIsKept | src/rcrpc/net.c:95-151 | from any history, after an init and any configurations the synchronous channel is that init's and open |
| Net.Server.NetInit | src/rcrpc/net.c:95-111 | a second init releases the first one's channels; a failed creation leaves none on record |
| Net.Server.NetCleanup | src/rcrpc/net.c:113-121 | both channels are destroyed while open, and the record is gone |
| Net.Server.NetConfig | src/rcrpc/net.c:123-151 | the old asynchronous channel is replaced, or gone if creation fails; the timeout keeps its low 16 bits even then |
| Net.Server.ReadSync | src/rcrpc/net.c:186-199 | the first non-zero receive of timeout / 5 + 1 attempts, else -ETIMEDOUT after sleeping more than the timeout by at most 5 ms |
| HexDump.EightDigits | bin/utils.c:210-210 | an offset below 2^32 prints as eight digits that read back to it |
| HexDump.PrintHexDump | bin/utils.c:195-240 | the loops print the rows of the buffer, one after the other |
| HexDump.ColumnsReadBack | bin/utils.c:218-223 | the hex columns give back the row's bytes, and blank columns end them |
| HexDump.TextColumns | bin/utils.c:227-235 | the text part shows a printable byte as itself, any other as a dot, and a blank past the end |
| HexDump.ColumnsBlanks | bin/utils.c:218-223 | one blank separates the columns, and two stand for each byte past the end |
| HexDump.RowReadsBack | bin/utils.c:205-238 | all rows are equally wide and laid out alike - prefix, offset and colon, columns apart by one blank and blank past the end, bars around the text, newline - and each gives back its offset, its bytes and its text: a printable byte as itself, any other as a dot, blanks past the end |
| HexDump.DumpIsUndone | bin/utils.c:195-240 | cutting the output by width alone gives back all bytes, in ceil(len / rowsize) rows, row r at offset r * rowsize |

## Left out

- Thin RPC stubs and forwarders (audio, backlight, handset display, lldp, media player, mixer, modem, smartcard, sound, task manager, tuner, voip): one call each into libraries that are not part of this model.
- The generated stubs and the wire encoding of `src/protocol.xml`: their code is not part of this model.
- The name tables of `bin/utils.c` and the enum switches of the audio and mixer modules: finite, settled by inspection.
- Irq.IrqServer.GetInfo: the hook, card, VoIP and modem state tables are a parameter (`decoded`); the model keeps when they are consulted and what an unknown state answers.
- Irq.IrqServer.UpdateFromSource: a handset state error other than -ENODATA, which would keep the bit and notify again, is outside the assumptions.
- Irq.IrqServer.Cleanup: the event manager keeps a pointer to the freed record after cleanup; an event after cleanup is not modelled.
- Irq.IrqServer.EventCb: a failing `irq_event`, whose error the callback returns after setting the bit all the same, is outside the protocol's assumptions.
- IrqPoll.ExecIrqPoll: remote calls that fail on the way, and several clients sharing the notifications, are not modelled; a lost mask or info call can lose the notification it was made for. The printed text is reduced to the handset words.
- ShellCode.Unquote: after a write past the buffer C leaves everything undefined; the model records the text that the loop intended to write and that it overran.
- Cli.Session: what happens after a write past a buffer or a comparison with a NULL name; the model stops at that line.
- Cli.ShellParse: the token count is unbounded; the overflow of a C int is not modelled.
- The heap of a session: the lines, the `struct cli` itself, the readline history and the remote connection are not on the model's heap; the help and version options, and a failing connection, end the program before the loop.
- Completion.Generator.Generate: the copy of each name belongs to readline; `readline_options_generator` always answers NULL.
- RpcSource.Source.Prepare: an error-level log call is taken to return; see the assumptions.
- RpcSource.Source.Dispatch: peer lookup and logging are dropped; an error-level log call is taken to return.
- RpcSource.Source.Check: only the three readiness bits that are asked for are modelled.
- Gpio.RemoteGpioSet: pin numbers and counts above 32, where the C shift is undefined, are outside the model.
- Net.Server.ReadSync: receive is a function of the attempt; the non-blocking, host name and hardware address modes, `net_write`, and time spent inside receive are not modelled.
- HexDump.DumpIsUndone: offsets from 2^32 on need more digits and make rows uneven; a row size of 0, on which the loop does not end, is excluded.
- The address prefix of the hex dump: `%p` is implementation-defined.
- Failed allocations, sockets, ioctl, `select`, keepalive, getopt, printed help and the poll thread.
- How the remote task manager splits the command line it receives: its parser is not in the repository, so the round trip is between the two functions that are.
