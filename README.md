# devzat-extractor message bank in Dafny

This project models the core of devzat-extractor, a Devzat chat bot. The bot
listens to every chat message and keeps the latest ones, stamped with their
Unix second, in a fixed-size circular buffer called the message bank. It
serves one kind of text extract of that buffer: the messages of one room,
or of every room, between two timestamps (`messagesBetween`). The bank also has a count-back
query (`compilePreviousMsg`), which renders the oldest `count` readable
messages of a room; only a commented-out debug line calls it. Each message is rendered as
`from: data` followed by two spaces and a newline. A `/extract <duration>`
command turns a duration such as `10m` into the Unix second that lay that
long ago; a missing `-` is added first.

Modules:

- `Wrappers`: the `Option` datatype, which stands for Go's nil-able `*T` results.
- `Messages`: the chat message, the timed message, its zero value, and the one-line rendering.
- `Queries`: the two extract scans as pure functions over the readable entries
  (oldest first), plus independent filter-based descriptions of what those
  scans return.
- `Bank`: the `messageBank` as a class over an array. It has a ghost history of
  every message appended. The object invariant says that each of the latest
  `size` appended messages still sits in slot `k % size`, k being its position
  in the history. Both query
  methods keep Go's loops and are proved against the `Queries` functions.
- `Duration`: the sign normalisation and the cutoff arithmetic of
  `timestampWhenDuration`. The duration parser and the clock are parameters.
- `Scenarios`: small concrete runs of the bank.

The code behaves in three ways a reader of a circular buffer might not
expect; the model follows the code:

- A read by age `n` succeeds only while `n + 1 < size`. So at most `size - 1`
  messages are ever readable, not `min(appended, size)`.
- `compilePreviousMsg` scans from the oldest readable message towards the
  latest. It therefore renders the OLDEST `count` matches, not the latest ones.
- `messagesBetween` keeps messages with `start < ts <= stop`, so the stop bound
  is inclusive. It breaks at the first message (oldest first) later than
  `stop`. When timestamps are not in append order, this can drop messages that
  lie inside the window.

## Model

| member | source | states |
|---|---|---|
| Bank.MessageBank.constructor | main.go:25-32 | a fresh bank of the given size with index 0, every slot holding the zero message, and no age readable |
| Bank.MessageBank.ReadNthPreviousMsg | main.go:34-46 | age n yields a message exactly when n + 1 < size and n + 1 <= index; that message is the (n+1)-th latest one appended |
| Bank.MessageBank.ReadableCount | main.go:38-44 | the number of readable ages never exceeds the number of appends, and stays below `size` when `size` is positive |
| Bank.MessageBank.Readable | main.go:37-46 | the readable messages, oldest first, are the latest min(index, size - 1) appended (none when size is 0); age n reads entry n from the end, and every older age reads None |
| Bank.MessageBank.AddMessage | main.go:48-52 | slot index % size receives the message, no other slot changes, index grows by one, the invariant is kept, the message becomes age 0 when size >= 2, and every older readable age shifts back by one |
| Bank.SlotsDiffer | main.go:50 | two of the latest `size` appends never share a slot, so an append overwrites only the oldest kept message |
| Bank.MessageBank.CompilePreviousMsg | main.go:54-70 | the loop returns the count-back scan of the readable messages, i.e. the first Clamp(count, matches) room matches (none when count <= 0), oldest first, rendered and concatenated |
| Queries.CountBackKeepsOldest | main.go:58-70 | the count-back scan renders the oldest `count` matching entries, in order; entries from other rooms use up no budget |
| Queries.CountBackFewerMatches | main.go:61-66 | with no more matches than the budget, every match is rendered |
| Queries.CountBackNoMatch | main.go:63 | when no entry is in the room, the extract is empty whatever the budget |
| Queries.InRoomMembers | main.go:63 | an entry passes the room filter exactly when it is one of the entries and either the room is empty or the entry's room equals it |
| Queries.InRoomAll | main.go:63 | the empty room admits every entry |
| Queries.CountBackFromSuffix | main.go:59-69 | the count-back scan resumed at position p of the readable messages (the loop's state after p readable ages) equals the scan of the messages from p on |
| Bank.MessageBank.MessagesBetween | main.go:101-119 | the loop returns the time-window scan of the readable messages; when the readable messages' timestamps never decrease (in particular when the whole history's do), this is exactly the rendering of the messages with start < ts <= stop in the room, oldest first |
| Queries.BetweenFromStep | main.go:105-116 | one step of the time-window scan at position p: a message later than stop ends the scan, a message strictly after start in the room adds its line, any other message adds nothing |
| Queries.BetweenFromSuffix | main.go:103-118 | the time-window scan resumed at position p of the readable messages equals the scan of the messages from p on |
| Queries.BetweenScansPrefix | main.go:104-117 | for any timestamp order, the extract is the window's matches among the entries before the first one later than stop |
| Queries.StopCutIsFirstLate | main.go:109-111 | every entry before the cut is not after stop, and the entry at the cut is later than stop |
| Queries.WindowMembers | main.go:109-115 | an entry is in the window exactly when it is one of the entries, start < ts <= stop, and it is in the room |
| Queries.BetweenSortedIsWindow | main.go:104-117 | with non-decreasing timestamps, the early break loses nothing: the scan renders the whole window |
| Queries.NonDecreasingPairs | main.go:104 | timestamps that never decrease from one entry to the next never decrease between any two entries, and conversely |
| Queries.NonDecreasingSuffix | main.go:104 | dropping the oldest entries keeps timestamps in order, so the readable suffix of a sorted history is sorted |
| Queries.NonDecreasingFirst | main.go:109-111 | in a sorted run no entry is earlier than the first one, so a break at the first message loses no message of the window |
| Queries.BetweenSortedSuffix | main.go:104-117 | when a history, or its suffix from k, is sorted, the scan of that suffix renders its whole window |
| Messages.FormatMsgLayout | main.go:72-75 | a rendered line is the sender, then ": ", then the data, then two spaces and a newline, and its length is the sum of those parts |
| Messages.FormatAllAppend | main.go:64 | rendering two runs of messages one after the other equals rendering their concatenation |
| Duration.NormaliseSign | main.go:87-90 | the result starts with '-' and ends with the input; it is the input itself exactly when the input already starts with '-'; otherwise it is one character longer |
| Duration.NormaliseSignIdempotent | main.go:87-90 | normalising twice is normalising once |
| Duration.NormaliseSignAbsorbsMinus | main.go:87-90 | an unsigned duration and the same duration with a leading '-' normalise alike |
| Duration.TimestampWhenDuration | main.go:85-99 | None exactly when the parser rejects the normalised duration; otherwise the Unix second (rounded down) of now plus the parsed duration |
| Duration.SignedAndUnsignedAgree | main.go:87-98 | "d" and "-d" give the same cutoff against the same clock |
| Duration.TenMinutesAgree | main.go:87-98 | "10m" and "-10m" give the same cutoff |
| Duration.CutoffNotAfterNow | main.go:87-98 | for any duration, when the parser reads a leading '-' as negation (as Go's ParseDuration does), the sign step makes the cutoff no later than the current Unix second |
| Scenarios.CountBackCapacityThree | main.go:37-70 | a capacity-3 bank holding three messages reads back only the latest two; asking for two messages of room "a" yields only the latest one; the all-rooms count-back yields both readable messages |
| Scenarios.LatestTwoOfCapacityThree | main.go:58-70 | the count-back text of the two readable messages, for one room and for all rooms |
| Scenarios.EvictionCapacityThree | main.go:37-52 | after four appends to a capacity-3 bank, ages 0 and 1 are the 4th and 3rd messages and age 2 reads None |
| Scenarios.CountBackKeepsOldestRun | main.go:58-70 | with three matches readable and a budget of two, the extract is the two oldest matches |
| Scenarios.OldestTwoOfThree | main.go:58-70 | the count-back scan of three matches with budget two renders the first two |
| Scenarios.BreakDropsLateOrder | main.go:101-119 | with timestamps 5, 20, 7 and window (0, 10], the scan stops at 20 and never reaches 7 |
| Scenarios.BreakText | main.go:104-117 | the time-window scan text for the out-of-order history above |

## Left out

- `main` (main.go:155-228): environment variables, defaults, the Devzat session, and the HTTP router are wiring, not logic.
- Concurrency: the listener goroutine and the web-server goroutine share the bank without a lock. The model is sequential.
- `timeMessage` (main.go:77-83): the clock. Timestamps are plain inputs of the appended messages.
- `time.ParseDuration` and `time.Now`: they become the `parse` and `nowNanos` parameters of `Duration.TimestampWhenDuration`. Error printing is left out.
- Duration.TimestampWhenDuration / Duration.NormaliseSign: require a non-empty duration. On `""` Go's `msg[0]` panics with an index out of range instead of returning nil, and its callers do not exclude it: `genExtractedURL` passes the command's argument through unchecked (main.go:203, 123). That panic is not modelled.
- Duration.TimestampWhenDuration: does not model the saturation of Go's `Time.Add` on overflow, because time offsets are unbounded integers.
- `genExtractedURL` (main.go:121-135): I/O through the session. Its case of carrying on after an invalid duration (a nil dereference) is not modelled.
- `replyExtract` (main.go:137-153): HTTP parameter parsing and responses. This includes its mapping of room "all" to every room.
- The `DMTo` field and the other fields of the chat message that the core never reads.
- Go's fixed-width `int`/`int64` arithmetic: `index` is a `nat` and timestamps are `int`, so wrap-around after 2^63 appends is not modelled.
- Bank.MessageBank.ReadNthPreviousMsg: returns the message by value, not a `*TimedMsg` into the slice, so aliasing through the returned reference is not modelled. Its age is a `nat`: every caller passes a non-negative age, and a negative one in Go would read a slot not yet meant to be readable.
- Bank.MessageBank.constructor: a negative size, for which Go's `make` panics, is excluded by the `nat` type.
- Bank.MessageBank.AddMessage: requires size > 0, because with size 0 Go's `b.index % b.size` panics on division by zero.
