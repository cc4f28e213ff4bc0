# wind-vue NNTP client core, in Dafny

This project models the NNTP client of wind-vue, a web newsreader that talks
NNTP over a websocket. `NNTPClient` keeps a FIFO of outstanding commands,
each paired with a `Completer` (a write-once result slot). An incoming
websocket message is framed into response lines. The status code is parsed
from the first line, and the oldest outstanding command is resolved with
the result. `getNewsGroupList` sends LIST NEWSGROUPS and LIST ACTIVE and
merges the two replies into one record per newsgroup.

Modules, one per concern of the source:

- `Wrappers`: `Option` and `Result`.
- `JsString`: the JavaScript string operations the client relies on:
  `split` with a string separator, `Array.prototype.join`, `indexOf`, `substring`.
- `JsNumber`: JavaScript numbers as `Num(int) | NaN`, with `parseInt` (no radix)
  and `Number(string)` for the integer forms.
- `Utils`: the `Completer` class (src/utils/completer.ts).
- `NntpCommand`: the request and response records (src/nntp/nntp_command.ts).
- `NntpFraming`: the lines and status code that the message handler derives
  from one message, as functions, with their properties.
- `NntpGroupList`: the dictionary built by `getNewsGroupList` and
  `completeGroupInfo`. It has a specification by folds, with lemmas, and the
  two `forEach` loops as methods proved against it.
- `Nntp`: the `NNTPClient` class and scenarios that chain its methods.

## Behaviour as written

The model follows the code, including where it departs from the NNTP
framing a reader would expect:

- The handler's buffer never survives a message. If a message has more than
  one CRLF-separated piece and its last piece is not ".", the message is
  pushed twice and joined with ",". The last piece is then dropped. A reply
  ending in the usual CRLF "." CRLF therefore takes this path and its lines
  appear twice (`NntpFraming.FrameBuffered`, `Nntp.TerminatedReplyLines`).
- Only a message with no CRLF, or one whose last piece is "." (no CRLF
  after the terminator), is framed as its own lines
  (`NntpFraming.FrameUnbuffered`, `Nntp.UnterminatedReplyLines`). A one-line
  status reply ending in CRLF is delivered as the status line followed by
  "," and the status line (`NntpFraming.StatusReplyDoubled`).
- A message starting with "201" is only logged and then treated like any
  other message. With no command outstanding, the response is dropped
  (`Nntp.UnsolicitedMessageDropped`).
- An ACTIVE line that names a group without a NEWSGROUPS entry raises a
  TypeError, which rejects the whole call. The "." terminator of a usual
  ACTIVE reply is such a line (`Nntp.TerminatedActiveReplyFails`).
- The `name` field of every record is "" (`NntpGroupList.GroupListDescription`).
- A command without arguments is sent bare, with no CRLF (`Nntp.WireText`).

## Model

| member | source | states |
|---|---|---|
| JsString.IndexOf | src/nntp.ts:99 | the result is -1 or a position at which the separator occurs |
| JsString.IndexOfFirst | src/nntp.ts:99 | the result is at or before every occurrence: it is the first one |
| JsString.Substring | src/nntp.ts:100-101 | in-range bounds give that slice; a negative end is clamped to 0 and the bounds swapped, giving the prefix up to the start |
| JsString.Split | src/nntp.ts:24 | splitting always yields at least one piece |
| JsString.SplitSingle | src/nntp.ts:24 | there is exactly one piece iff the separator does not occur, and that piece is the whole text |
| JsString.SplitPiecesFree | src/nntp.ts:24 | no piece contains the separator |
| JsString.Join | src/nntp.ts:37 | `Array.prototype.join`: the parts with the separator between consecutive ones, "" for no parts; its round trips with `split` are `JsString.JoinSplit` and `JsString.SplitJoin` |
| JsString.JoinSplit | src/nntp.ts:24 | joining the pieces with the separator gives back the text |
| JsString.SplitJoin | src/nntp.ts:65 | splitting a join on a one-character separator gives back the parts when none contains it |
| JsString.SplitAppend | src/nntp.ts:37-38 | splitting a concatenation splits the first text, then splits its last piece together with the second |
| JsString.SplitPrepend | src/nntp.ts:37-38 | a prefix containing no occurrence only extends the first piece |
| JsNumber.ParseInt | src/nntp.ts:44 | an empty text, or one starting with neither white space, a sign nor a digit, is NaN |
| JsNumber.ParseIntDecimal | src/nntp.ts:44 | `parseInt` reads back a decimal number followed by text that cannot extend it |
| JsNumber.ToNumber | src/nntp.ts:107-108 | `Number(text)` for the integer forms: surrounding white space ignored, "" is 0, radix prefixes and signed decimals read, anything else NaN; `JsNumber.ToNumberDigits` and `JsNumber.ToNumberDecimal` state what it reads |
| JsNumber.ToNumberDigits | src/nntp.ts:107-108 | `Number` of a run of decimal digits, leading zeros included, is its value |
| JsNumber.ToNumberDecimal | src/nntp.ts:107-108 | `Number` reads back the decimal text of a natural number |
| Utils.Completer.constructor | src/utils/completer.ts:6-11 | a new completer's promise is pending |
| Utils.Completer.Complete | src/utils/completer.ts:7-9 | resolves a pending promise with the value; a resolved one keeps its first value |
| Utils.FirstCompletionWins | src/utils/completer.ts:2-9 | after two completions every reader sees the first value |
| NntpFraming.FrameLines | src/nntp.ts:24-41 | the handler always has at least one response line, so the status line exists |
| NntpFraming.FrameUnbuffered | src/nntp.ts:24-29 | a single-piece message, or one ending in ".", is framed as its own pieces and they join back to it |
| NntpFraming.FrameBuffered | src/nntp.ts:26-41 | any other message is framed as its pieces, a last piece extended by "," and the first piece, then the pieces again without the last |
| NntpFraming.StatusReplyDoubled | src/nntp.ts:24-41 | a one-line status reply ending in CRLF is delivered as that line and then "," followed by that line |
| NntpFraming.ResponseCode | src/nntp.ts:44 | `parseInt` of the first space-separated token of the first line; `NntpFraming.StatusCode` states the code it reads |
| NntpFraming.FrameResponse | src/nntp.ts:45-48 | the response record the handler completes: that code and the framed lines; `NntpFraming.FrameStatusLine` and `Nntp.NNTPClient.OnMessage` carry its properties |
| NntpFraming.FrameStatusLine | src/nntp.ts:44 | the status line is the first CRLF piece and the code is `parseInt` of its first space-separated token |
| NntpFraming.FrameLinesClean | src/nntp.ts:24-41 | no response line contains CRLF |
| NntpFraming.StatusCode | src/nntp.ts:44 | a status line "code text" yields that code |
| NntpGroupList.CompleteGroupInfo | src/nntp.ts:78-88 | each field present in the partial record wins, and each absent one is "", "", -1 or -1 |
| NntpGroupList.CompleteGroupInfoRoundTrip | src/nntp.ts:78-88 | completing a full record gives it back; completing an empty one gives the defaults |
| NntpGroupList.NewsgroupKey | src/nntp.ts:99-100 | `substring(0, indexOf(" "))` of a NEWSGROUPS line; `NntpGroupList.NewsgroupEntry` states what it yields |
| NntpGroupList.NewsgroupDescription | src/nntp.ts:99-101 | `substring(indexOf(" ") + 1)` of a NEWSGROUPS line; `NntpGroupList.NewsgroupEntry` states what it yields |
| NntpGroupList.NewsgroupEntry | src/nntp.ts:99-101 | a line with a space is cut at the first space into a space-free key and the rest; without a space the key is "" and the description is the whole line |
| NntpGroupList.ParseActive | src/nntp.ts:105-106 | the name is the first space-separated token; a line without a space has NaN watermarks |
| NntpGroupList.ActiveLineWatermarks | src/nntp.ts:105-108 | "name high low flag" with watermarks written as decimal digits, zero-padded or not, yields that name and the values of the high and low watermark |
| NntpGroupList.NewsgroupsMap | src/nntp.ts:98-102 | the dictionary after the NEWSGROUPS pass, a left fold storing a description-only record under each line's key; `NntpGroupList.NewsgroupsMapKeys` and `NntpGroupList.NewsgroupsMapLastWins` carry its properties |
| NntpGroupList.NewsgroupsMapKeys | src/nntp.ts:98-102 | the dictionary has exactly the keys of the NEWSGROUPS lines |
| NntpGroupList.NewsgroupsMapLastWins | src/nntp.ts:98-102 | the last line with a key decides its entry, a description only |
| NntpGroupList.ApplyActive | src/nntp.ts:104-109 | the ACTIVE pass over parsed lines, setting both watermarks of each named entry in order or failing at the first unknown name; the `NntpGroupList.ApplyActive*` rows carry its properties |
| NntpGroupList.ApplyActiveOutcome | src/nntp.ts:104-109 | the ACTIVE pass succeeds iff every line names an existing entry, and then keeps the keys; otherwise it fails with the first unknown name |
| NntpGroupList.ApplyActivePreserves | src/nntp.ts:104-109 | the ACTIVE pass keeps every entry's name and description |
| NntpGroupList.ApplyActiveUntouched | src/nntp.ts:104-109 | an entry no ACTIVE line names is unchanged |
| NntpGroupList.ApplyActiveLast | src/nntp.ts:104-109 | the last ACTIVE line naming an entry sets both its watermarks |
| NntpGroupList.CompleteAll | src/nntp.ts:111-113 | one completed record per dictionary entry |
| NntpGroupList.GroupList | src/nntp.ts:98-113 | the two passes followed by completion of every entry, or the TypeError; the `NntpGroupList.GroupList*` rows carry its properties |
| NntpGroupList.GroupListFails | src/nntp.ts:98-115 | the group list fails iff some ACTIVE name is not a NEWSGROUPS key, with the first such name |
| NntpGroupList.GroupListKeys | src/nntp.ts:98-115 | on success there is one record per distinct NEWSGROUPS key |
| NntpGroupList.GroupListDescription | src/nntp.ts:98-115 | a record's name is "" and its description comes from the last NEWSGROUPS line with its key |
| NntpGroupList.GroupListUnlisted | src/nntp.ts:98-115 | a group that no ACTIVE line names keeps low and high watermark -1 |
| NntpGroupList.GroupListWatermarks | src/nntp.ts:98-115 | the last ACTIVE line naming a group sets both its watermarks, as `Number` of its second and third tokens |
| NntpGroupList.CollectNewsgroups | src/nntp.ts:98-102 | the NEWSGROUPS loop builds exactly `NewsgroupsMap(newsLines)` |
| NntpGroupList.SetWatermarks | src/nntp.ts:104-109 | the ACTIVE loop's outcome, the updated dictionary or the TypeError at the first unknown name, is exactly `ApplyActive(groupMap0, ParseActiveLines(activeLines))` |
| NntpGroupList.BuildGroupList | src/nntp.ts:91-115 | the two loops followed by completion give exactly `GroupList(news, active)` |
| Nntp.WireText | src/nntp.ts:64-68 | with arguments, the command and arguments joined by spaces and ended by CRLF; without, the bare command |
| Nntp.WireTokens | src/nntp.ts:64-68 | the sent line ends in CRLF and splits back into the command and its arguments when none contains a space |
| Nntp.PreparedLines | src/nntp.ts:71-74 | the lines without the first and the last; nothing when there are fewer than two |
| Nntp.UnterminatedReplyLines | src/nntp.ts:26-29 | a reply ending in "." without CRLF keeps exactly its body lines |
| Nntp.TerminatedReplyLines | src/nntp.ts:26-41 | a reply ending in CRLF "." CRLF yields its body lines twice, separated by "." and the comma-prefixed status line |
| Nntp.TerminatedActiveReplyFails | src/nntp.ts:104-109 | such an ACTIVE reply makes the group list fail, unless "." is a NEWSGROUPS key |
| Nntp.NNTPClient.constructor | src/nntp.ts:12-13 | no outstanding command and an empty buffer |
| Nntp.NNTPClient.FrameMessage | src/nntp.ts:22-41 | the handler's buffer pushes, join, split and pop produce exactly `FrameLines(message)` and leave the buffer empty, the queue and the sent log untouched |
| Nntp.NNTPClient.OnMessage | src/nntp.ts:18-49 | the oldest outstanding command is dequeued and resolved with the framed response; with none outstanding nothing changes; the buffer ends empty |
| Nntp.NNTPClient.IssueCommand | src/nntp.ts:58-68 | a new pending command joins the back of the queue and its wire text is sent |
| Nntp.NNTPClient.FinishCommand | src/nntp.ts:70-75 | the resolved response, with first and last line stripped when asked |
| Nntp.NNTPClient.RequestNewsGroupList | src/nntp.ts:92-96 | LIST NEWSGROUPS then LIST ACTIVE are queued and sent in that order |
| Nntp.NNTPClient.FinishNewsGroupList | src/nntp.ts:98-115 | the result is the group list of the two stripped replies |
| Nntp.ReceiveFor | src/nntp.ts:43-48 | a message resolves the oldest outstanding command with the framed response and removes it from the queue |
| Nntp.FifoCorrelation | src/nntp.ts:43-48 | three commands receive three messages' responses in order |
| Nntp.UnsolicitedMessageDropped | src/nntp.ts:43-48 | a message with nothing outstanding is dropped and the next command gets the next message |
| Nntp.NewsGroupListExchange | src/nntp.ts:90-116 | a whole exchange sends the two LIST commands and yields the group list of the two framed replies |

## Left out

- The websocket (src/nntp.ts:16-17, 50) is replaced by the `sent` log and by calls to `OnMessage`. The URL, connection set-up and non-string message data are not modelled.
- `console.debug` for messages starting with "201" (src/nntp.ts:19-21) is a log line only and is not modelled.
- Asynchrony: `sendCommand` and `getNewsGroupList` are each split at their `await` into a request step and a finish step. Interleavings other than those the scenarios spell out are not modelled. `getNewsGroupList` rejects only through the TypeError of an unknown ACTIVE group (`NntpGroupList.ListError`).
- Nntp.NNTPClient.FinishCommand: returns the stripped lines as a new value. In JavaScript `shift`/`pop` mutate the resolved object in place, so every other reader of the same promise would also see the stripped lines. That aliasing is not modelled.
- Utils.Completer.Complete: accepts a value only; resolving with a thenable (`PromiseLike<T>`) is not modelled. The private `reject` is never called by the source and has no counterpart.
- JsNumber.ParseInt: integers are unbounded, so precision loss above 2^53 and the sign of -0 are not modelled.
- JsNumber.ToNumber: the watermarks read at src/nntp.ts:107-108 are exact integers in the model, while JavaScript rounds values above 2^53 to the nearest double.
- JsNumber.ToNumber: fractions, exponents and "Infinity" are mapped to NaN instead of their values. Only the integer forms are computed.
- NntpGroupList.GroupList: the result is a map from dictionary key to record rather than an array in `Object.entries` order. Keys with special meaning on plain JavaScript objects (such as "__proto__") are treated like any other key.
- NntpGroupList.ApplyActive: an ACTIVE name that is an inherited `Object.prototype` member ("toString", "constructor", "valueOf", …) and no NEWSGROUPS key does not throw in JavaScript. There `groupMap[name]` is the inherited function, the watermarks are set on it, and the group does not appear in `Object.entries`. The model treats such a name like any other unknown name and fails with the TypeError.
- NntpGroupList.ListError: the `group` field only records which ACTIVE line threw; the JavaScript `TypeError` carries a generic message and no group name, so callers of `getNewsGroupList` cannot read it. `ApplyActiveOutcome` and `GroupListFails` state which line throws through this field.
- src/utils/queue.ts is not part of this model: the command queue is a sequence, `enqueue` appends, and `dequeue` takes the front, with nothing when empty.
- src/nntp/group_info.ts is not part of this model: the record's fields are those `completeGroupInfo` fills in.
- src/main.ts (application start-up) is outside the client core.
