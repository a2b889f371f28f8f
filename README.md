# terminal-slack: optimistic send, acknowledgment reconciliation, channel switch

A Dafny model of the core of a terminal Slack client (`main.js`). The client
keeps a chat window of text lines, newest on top. When the user submits a
message, it takes a fresh id from a counter. It puts the line
`{bold}name{/bold}: text (pending - id )` on top of the window and sends the
frame `{id, type: 'message', channel, text}`. Acknowledgments arrive later on
the streaming connection. For one with a truthy `ok`, the client scans the
window from the bottom line up. For each line it splits on `(pending - `,
parses the first character of the last piece with `parseInt`, and compares
that digit with `reply_to`. At the first match it replaces the line, at the
same index, with the pieces before the last one joined together. Selecting a
channel shows `Getting messages...`, joins the channel, records its id as
the current channel, and fetches the history. It then drops the top line,
keeps the `message` entries, and looks up each author in the user
directory, where the last match wins. It reverses the list and unshifts the
lines one by one. Finally it asks the service to mark the channel read at
`latest`.

Modules:

- `Options` (options.dfy): the optional value used for missing fields,
  NaN and searches that find nothing.
- `JsStrings` (js_strings.dfy): the JavaScript string behaviour the client
  relies on. `split` with a string separator scans left to right with
  non-overlapping matches. Also modelled: `join('')`, `parseInt` of one
  character, and the decimal text of an integer.
- `Reconcile` (reconcile.dfy): the pure model of pending lines and
  acknowledgments. `MatchIndex` is the line the downward scan picks, and
  `AfterAck` is the window after an ack.
- `History` (history.dfy): the history projection: filter, author lookup,
  `map`, `reverse`, and the rendered block.
- `Chat` (chat.dfy): class `Client`. It holds the window, the id counter and
  `currentChannelId`, plus one method per handler. The channel-select handler
  is split at its two callbacks (`OnSelect`, `OnJoinReply`, `OnHistoryReply`),
  so that submits and acks can be interleaved between them. `SelectChannel`
  runs the three steps back to back. Outbound requests are returned values:
  the frame, the history request and the mark-read request.

The matching rule is modelled as written: only one character after the last
marker is read. So an ack recognises the pending line for id `n` exactly when
`reply_to` is the leading decimal digit of `n` (`PendingLineMatches`). Ids of
10 and above are never confirmed by their own ack
(`OwnAckMatchesOnlyBelowTen`). The ack for 1 also confirms a pending 12
(`AckMatchesSharedLeadingDigit`). So a repeated ack is a no-op when its
first delivery confirmed the only line it recognises, and that line was one
of the client's own pending lines whose text holds no marker
(`RepeatedAckIsNoOp`). Otherwise it need not be one. A second delivery of
ack 1 can confirm the id-12 line (`RepeatedAckConfirmsAnotherLine`). A line
whose own text holds marker text can be changed a second time, because
gluing its pieces can form a new marker (`RepeatedAckOnGluedMarker`).

Other details of the code that the model keeps:

- A confirmed line keeps the space that came before the marker
  (`{bold}Alice{/bold}: hello `), not `Alice: hello`.
- `join('')` drops every `(pending - ` that `split` found in the line, not
  only the last one. Gluing the pieces back together can, however, form a
  new `(pending - ` out of text on both sides of a removed one
  (`ConfirmBehindTwoMarkers`).
- The scan runs from the highest index down, so the oldest matching line
  wins, not the newest.
- An author missing from the directory renders as `undefined`. So does a
  missing text.
- The mark-read request uses the channel id that is current when the
  history arrives.

The class invariant `Client.Valid` says that every window line starts with a
character that is neither a digit nor `(`. Every line the client writes
starts with `{` or `G`. Under this invariant a line without a marker is
never touched by an ack (`UnmarkedLineNeverMatches`), and a confirmed line
keeps the invariant (`ConfirmKeepsHead`).

## Model

| member | source | states |
|---|---|---|
| `JsStrings.SplitFrom` | main.js:40 | the left-to-right scan of `split` yields at least one piece, the first piece begins with the text scanned before the call, and a single piece is that text followed by the whole rest; `SplitFromPieces` and `SplitRoundTrip` state what the pieces are |
| `JsStrings.SplitFromPieces` | main.js:40 | joining the scan's pieces with `(pending - ` gives back the scanned text, and no piece holds `(pending - ` |
| `JsStrings.SplitRoundTrip` | main.js:40 | `s.split(m).join(m) == s` for the marker m; no piece holds the marker; there is one piece exactly when s holds no marker |
| `JsStrings.JoinInitBounds` | main.js:40-43 | the pieces before the popped one, glued: empty for a string without a marker, and at least one marker's length shorter than a string with one |
| `JsStrings.SplitNoMarker` | main.js:40 | a string with no `(pending - ` splits into exactly itself |
| `JsStrings.SplitAtAppendedMarker` | main.js:40-43 | for `a + "(pending - " + b` with no marker in b, the popped last piece is exactly b, and the joined rest equals `a` split and joined; no marker can straddle the appended one |
| `JsStrings.ParseIntFirstChar` | main.js:41 | `parseInt(s[0])` is a number exactly when the first character is an ASCII digit, and then it is that digit's value |
| `JsStrings.Decimal` | main.js:60-63 | the id's text is non-empty, all digits, without a leading zero, starts with the id's leading digit, and its digits stand for the id (`DigitsValue(r) == n`) |
| `JsStrings.LastPiece` | main.js:41 | `line.pop()` after the split: the popped piece holds no marker, and for a line without a marker it is the whole line; `Reconcile.AckAtLastMarker` gives its value for every line |
| `JsStrings.LastMarker` | main.js:40 | where the last `(pending - ` in a string starts: a marker starts there, none starts after it, and there is none exactly when the string holds no marker |
| `JsStrings.SplitEnds` | main.js:40-43 | for every string: without a marker `split` gives the string alone; with one, the last piece is the text after the last marker and the other pieces glue to the text before it, split and glued, which is that text itself when it holds no marker |
| `JsStrings.LeadingDigit` | main.js:41 | the leading digit is below 10, at least 1 for positive ids, and equals the id exactly when the id is below 10 |
| `JsStrings.NoParenNoMarker` | main.js:40 | a string without `(` holds no marker |
| `Reconcile.PendingLine` | main.js:60-63 | the pending line `{bold}name{/bold}: text (pending - id )` starts with `{` and carries the marker right after `{bold}name{/bold}: text `; `PendingLineParts` and `PendingLineMatches` give how an ack reads it |
| `Reconcile.Matches` | main.js:40-41 | the test for one line: the first character of the piece after the last marker parses to `reply_to`; only a `reply_to` from 0 to 9 can ever match |
| `Reconcile.Confirm` | main.js:43 | `line.join('')` after the pop: a line without a marker would become empty, and a line with one loses at least the marker's length; `AckAtLastMarker` gives its value for every line |
| `Reconcile.AckAtLastMarker` | main.js:40-43 | for every window line, history lines with marker text included: without a marker the ack parses the line itself and confirming would empty it; with one, the ack parses the text after the last marker, and confirming removes that marker and everything after it, leaving the text before it (split and glued in turn, so unchanged when it holds no marker) |
| `Reconcile.MatchIndex` | main.js:38-45 | the line the downward scan stops at: it matches, no line below it matches, and None means no line matches |
| `Reconcile.AfterAck` | main.js:31-48 | an ack keeps the window length; a falsy `ok` or no match leaves the window unchanged; otherwise only the `MatchIndex` line changes, and it becomes its confirmed text |
| `Reconcile.PendingLineParts` | main.js:40-43 | on a pending line the popped piece is `id + " )"` and the joined rest is the text before the appended marker with every marker removed, whatever the name and text hold |
| `Reconcile.PendingLineMatches` | main.js:40-41 | an ack matches the pending line for id exactly when `reply_to` equals the id's leading digit |
| `Reconcile.OwnAckMatchesOnlyBelowTen` | main.js:41 | a pending line is matched by its own id's ack exactly when the id is below 10 |
| `Reconcile.AckMatchesSharedLeadingDigit` | main.js:41 | the ack for digit d matches every pending line whose id starts with d, for example 12 for d = 1 |
| `Reconcile.ConfirmPendingLine` | main.js:43 | confirming a pending line whose leading text holds no marker gives `{bold}name{/bold}: text ` |
| `Reconcile.UnmarkedLineNeverMatches` | main.js:40-41 | a line that starts with neither a digit nor `(` and has no marker is never matched |
| `Reconcile.ConfirmKeepsHead` | main.js:43 | a matched line with such a start has a confirmed text that begins with the same character |
| `Reconcile.ConfirmedLineNeverMatches` | main.js:40-43 | a confirmed line without markers matches no later ack |
| `Reconcile.RepeatedAckIsNoOp` | main.js:31-48 | when the only line an ack matches is a pending line `PendingLine(name, text, id)` whose text before the marker holds no marker, delivering the ack twice gives the same window as once |
| `Reconcile.ConfirmBehindOneMarker` | main.js:40-43 | for `a + "(pending - " + c` with no marker in a or c, the ack reads c and confirming leaves a |
| `Reconcile.ConfirmBehindTwoMarkers` | main.js:40-43 | for `a + "(pending - " + b + "(pending - " + c` with no marker in a, b or c, the ack reads c and confirming gives `a + b`, which may hold a new marker |
| `Reconcile.RepeatedAckOnGluedMarker` | main.js:31-48 | a single line `{A}(pen(pending - ding - 3(pending - 3 )` is confirmed to `{A}(pending - 3` by ack 3, and a second ack 3 changes it again to `{A}` |
| `Reconcile.RepeatedAckConfirmsAnotherLine` | main.js:38-45 | with pending 12 above pending 1, the first ack 1 confirms id 1's line and a repeated ack 1 confirms id 12's line |
| `Reconcile.SubmitThenAck` | main.js:38-63 | a new pending line with a one-digit id, on top of lines that do not answer to that id, comes back confirmed; all other lines stay as they were |
| `History.KeepMessages` | main.js:130-133 | the kept entries are exactly the `message` entries of the input, and no more of them |
| `History.KeepMessagesAppend` | main.js:130-133 | filtering keeps relative order: filtering `a + b` is filtering a, then filtering b |
| `History.AuthorName` | main.js:135-143 | no name when no directory user has the entry's user id; otherwise the name of a matching user with no matching user after it, so the last match wins |
| `History.FindUserName` | main.js:135-143 | the forward lookup loop returns exactly `AuthorName` |
| `History.HistoryLine` | main.js:149-151 | the line for one shown message starts with `{`; a missing author gives `{bold}undefined{/bold}: ` at its start and a missing text `undefined` at its end |
| `History.Project` | main.js:134-145 | the `map` step gives one `{text, username}` per kept entry, in order, with the entry's text; no name exactly when no directory user has the entry's user id, and otherwise the name of the last matching directory user |
| `History.HistoryBlock` | main.js:130-151 | the filter, map and render pipeline gives one line per `message` entry, never more lines than entries, each starting with `{` |
| `History.Reverse` | main.js:146 | the reversal has the same length, and position k holds element `n-1-k` |
| `History.ReversedUnshiftRestoresOrder` | main.js:146-152 | unshifting the lines of the reversed list one by one reads top to bottom in the service's order |
| `History.HistoryBlockAppend` | main.js:130-152 | the rendered block for `a + b` is a's block above b's block |
| `History.HistoryBlockOfOne` | main.js:130-151 | one entry renders one line `{bold}name{/bold}: text` if it is a message, and nothing otherwise |
| `History.NonMessageEntryRendersNothing` | main.js:130-133 | an entry of another type, such as a channel join, adds no line |
| `History.NewestFirstHistoryRendersNewestOnTop` | main.js:127-152 | for any directory user and any two texts returned newest first, the block shows the newer message `{bold}name{/bold}: newer` above the older one |
| `Chat.ProjectHistory` | main.js:134-145 | the `map` loop over kept entries yields `{text, username}` per entry, with the last-match author |
| `Chat.HistoryLinesWellHeaded` | main.js:149-151 | every rendered history line is non-empty and starts with `{`, so it keeps the window invariant |
| `Chat.Client.constructor` | main.js:7-15 | empty window, counter at 0, no current channel |
| `Chat.Client.NextId` | main.js:10-15 | returns one more than the previous id, 1 first, so it is larger than every id issued before |
| `Chat.Client.Submit` | main.js:56-72 | a fresh id; the pending line with that id on top; every old line one place down; the frame carries the same id, type `message`, the current channel at submit time and the unmodified text |
| `Chat.Client.HandleMessage` | main.js:28-48 | the downward scan leaves the window equal to `AfterAck` of the old window and keeps the class invariant |
| `Chat.Client.UnshiftLine` | main.js:60-63 | the widget's `unshiftLine`: the line goes on top and every old line moves one place down |
| `Chat.Client.DeleteLine` | main.js:42 | the widget's `deleteLine(i)`: line i is removed and the lines below it move up one place |
| `Chat.Client.InsertLine` | main.js:43 | the widget's `insertLine(i, line)`: the line is placed at index i and the lines from i on move down one place |
| `Chat.Client.DeleteTop` | main.js:127 | the top line is removed; on an empty window the widget is taken to do nothing |
| `Chat.Client.OnSelect` | main.js:101-107 | the window becomes the single placeholder line |
| `Chat.Client.OnJoinReply` | main.js:110-120 | a failed join changes no channel and requests nothing; a successful one sets the current channel to the joined id and requests its history; the class invariant is kept |
| `Chat.Client.OnHistoryReply` | main.js:120-161 | a failed fetch changes nothing and marks nothing; a successful one drops the top line, puts the history block on top, and marks the current channel read at `latest` |
| `Chat.Client.UnshiftAll` | main.js:147-152 | unshifting a list puts it, reversed, above the old window |
| `Chat.Client.SelectChannel` | main.js:101-163 | a failed join leaves the channel unchanged, shows only the placeholder and marks nothing; a failed history sets the joined channel, keeps the placeholder and marks nothing; a success shows exactly the history block and marks the joined channel at `latest` |
| `Chat.SubmitDuringChannelSwitch` | main.js:56-127 | on any client, a submit between select and join completion sends its frame with the channel that was current before the switch (none on a fresh client); when the history arrives, the pending line is what `deleteTop` removes, so the window ends as the history block above the placeholder, and the new channel is marked read |

## Left out

- slackClient.js is not part of this model. Its HTTP requests, WebSocket set-up, proxy rewriting, environment reading and fatal exits are replaced by the reply values `JoinReply` and `HistoryReply` and the returned requests. In the full program `slackRequest` (slackClient.js:32-50) ends the process on a transport error, a non-200 status or `ok: false` before the callback in main.js runs. So `JoinFailed` and `HistoryFailed` model the guards at main.js:111-114 and main.js:121-124 as written, but in the running program those guards never fire. The `console.log` on those paths is left out too (console output).
- JSON parsing and serialisation: events, replies and frames are already-parsed records.
- An ack's `ok` is modelled as its truthiness. A `reply_to` that is absent or not a number is `None`.
- Screen rendering, focus, input clearing, the channel title, the channel-list population and the cancel handler are left out. They are widget calls with no domain state.
- The `ws_log.txt` appends are left out (file I/O).
- The window widget is modelled as a sequence with one entry per inserted string. Wrapping and the splitting of embedded newlines are not modelled. `Client.Valid`'s well-headed invariant, and with it `UnmarkedLineNeverMatches`, depends on this: if the widget split a history text such as `hi\n5 apples` into lines, the line `5 apples` would hold no marker, yet ack 5 would match it and replace it with an empty line. userInterface.js is not part of this model, so the window starts empty.
- `Chat.Client.DeleteTop`: what the widget's `deleteTop` does on an empty window is not in main.js; the model takes it to leave the window empty.
- The user directory is a constructor parameter. A history that arrives before the directory has loaded throws in the source; that case is not modelled.
- `Chat.Client.SelectChannel` takes both replies up front and runs the steps atomically. Other interleavings are expressed by calling the step methods separately.
- `Chat.Client.NextId`: the source's `id += 1` runs on JavaScript doubles, and from 2^53 on the addition no longer changes the value, so the source's ids stop being distinct and increasing there. The model's counter is an unbounded `nat`, so its distinct, increasing ids hold only below 2^53.
- `JsStrings.Decimal` covers non-negative integers only. It does not cover JavaScript's exponent notation for numbers of 10^21 and above.
