# dc-sendmessages, modelled in Dafny

The program signs in several Discord accounts from a token file and posts the
lines of a message file to one channel. The accounts take turns: each full
pass over the message list is sent by one account, then the next account
takes over. This project models the core of `main.go` as pure functions and
small methods, and proves what that core does:

- `Lines` (`lines.dfy`): `readFile`. The text is cut into lines the way
  `bufio.Scanner` does by default. Each line is trimmed with the white space
  of Go's `unicode.IsSpace`. Blank lines are dropped and the rest keep their
  file order.
- `Pool` (`pool.dfy`): `Bot.Initialize` and `Bot.Close`. Each token is tried
  in turn: create a session, open it, ask for the account name.
  - A token whose session cannot be created is skipped.
  - A session that fails to open, or whose account name cannot be fetched, is
    closed and skipped.
  - Every other session joins the pool, in token order.
- `Dispatch` (`dispatch.dfy`): `Bot.StartMessageLoop`.
  - The loop runs as a trace of events: a send and its outcome, or a pause.
  - A pause comes only after a successful send.
  - After each pass the cursor moves to the next account, modulo the pool size.
  - Without looping, the run stops when the cursor is back at the first account.
- `Errors` (`errors.dfy`): the error cases as a datatype, plus `Option` and
  `Result`.

The outside world is passed in as parameters:

- **File contents.** A file is `Unopenable`, `ScanFailed`, or `Contents(text)`.
- **The Discord library.** A `Provider` maps a token's position and text to
  the outcome of create, open and user lookup.
- **Send outcomes.** A `SendOracle` maps a pass number and a message position
  to whether the send succeeded.
- **Loop mode.** The loop runs forever. It is observed for a `horizon` number
  of passes.

Three behaviours of the code are worth stating plainly:

- **Pausing.** A failed send hits `continue` (main.go:101), which skips the
  sleep (main.go:105), so pauses follow successful sends only.
  `Dispatch.PassPaced` and `Dispatch.RunPaced` prove that the number of
  pauses equals the number of successful sends.
- **Empty message list.** An empty `msg.txt` is no error: the loop makes its
  n passes, sends nothing and never pauses. See `Dispatch.EmptyMessages`.
- **Empty pool.** `Initialize` succeeds with an empty pool when every token
  fails (main.go:66). See "## Findings".

## Model

| member | source | states |
|---|---|---|
| Lines.TrimLeft | main.go:126 | the result is a suffix of the input, everything cut off is white space, and the result does not start with white space |
| Lines.TrimRight | main.go:126 | the result is a prefix of the input, everything cut off is white space, and the result does not end with white space |
| Lines.TrimSpace | main.go:126 | the result neither starts nor ends with white space, and an already trimmed line comes back unchanged |
| Lines.TrimSpaceInfix | main.go:126 | the trimmed line is a contiguous piece of the input with only white space cut from the two ends |
| Lines.TrimSpaceChars | main.go:126 | trimming introduces no character that was not in the line |
| Lines.LineEnd | main.go:125 | the position found is the first line feed, or the end of the text when there is none |
| Lines.ScanLines | main.go:124-125 | no scanned line contains a line feed; ScanLinesSplit states which lines come out |
| Lines.ScanLineStep | main.go:124-125 | a first line ended by a line feed is scanned as one line, with a trailing carriage return dropped, before the rest of the text |
| Lines.ScanLinesSplit | main.go:124-125 | for any text cut into line-feed-terminated pieces and an unterminated last piece, the scan gives each piece with one trailing carriage return dropped, in order, plus the last piece unless it is empty |
| Lines.ScanJoinLines | main.go:124-125 | writing lines with a line feed after each and scanning the text gives back the same lines, for lines without line feeds or trailing carriage returns |
| Lines.TrimAll | main.go:126 | line k of the result is line k of the input with white space cut at both ends, so it is trimmed; there are as many lines as in the input |
| Lines.TrimAllNoNewline | main.go:126 | trimming scanned lines never adds a line feed |
| Lines.Filter | main.go:126-127 | at most as many elements are kept as given, and every kept element passes the test |
| Lines.FilterPreserves | main.go:126-127 | any property of all input lines also holds of all kept lines |
| Lines.FilterSelects | main.go:126-127 | the kept elements are input elements at strictly increasing positions, and every element that passes the test is kept |
| Lines.FilterOfKept | main.go:126-127 | when every element passes the test, the filter returns the input unchanged |
| Lines.KeepLines | main.go:123-130 | every line kept is non-blank and trimmed, and there are no more of them than scanned lines |
| Lines.KeepLinesOfKept | main.go:123-130 | lines that are already trimmed and non-blank are all kept, in order |
| Lines.ReadFile | main.go:116-131 | reading fails exactly when the file cannot be opened or the scan fails; every line returned is non-blank, trimmed and free of line feeds |
| Lines.ReadFileSelects | main.go:116-131 | the lines returned are exactly the trimmed scanned lines that are not blank, in file order |
| Lines.ReadFileRoundTrip | main.go:116-131 | a list of non-blank trimmed lines written one per line reads back as the same list |
| Lines.ReadFileIdempotent | main.go:116-131 | writing back what was read and reading it again gives the same list |
| Pool.BuildPool | main.go:39-64 | the pool plus the sessions closed early never outnumber the tokens, and each of them is the session of its own token |
| Pool.BuildPoolExact | main.go:39-64 | the pool holds a token's session exactly when all three login steps succeeded, under the name the provider reported, in token order; sessions are closed early exactly for tokens that failed to open or to fetch their user, in token order |
| Pool.Initialize | main.go:29-67 | an unreadable token file is an error; a readable one is an error, `NoTokens`, exactly when it has no tokens; otherwise the result is the pool built from the file's tokens, so BuildPoolExact says which sessions it holds; never an error for having no usable account; the pool is bounded by the token count |
| Pool.InitializeAcceptsNoAccounts | main.go:35-66 | a non-empty token list in which no token logs in still gives success, with an empty pool |
| Pool.NoLoginNoPool | main.go:40-64 | without a successful login no session joins the pool |
| Pool.ReleasedStep | main.go:40-73 | adding one token adds its session to the released sessions exactly when the session was created |
| Pool.SessionsReleasedOnce | main.go:40-73 | every created session is closed exactly once, either during construction or by Close; a token whose session was never created causes no close |
| Pool.OneRejectedToken | main.go:29-66 | a token file holding one rejected token gives success with an empty pool and nothing closed |
| Pool.InitializeWithAccounts | main.go:29-67 | the corrected start-up never succeeds with an empty pool: an empty pool from the uncorrected `Initialize` becomes `NoUsableAccounts`; otherwise its result, success or error, is exactly that of the uncorrected `Initialize`, so a success carries the pool BuildPool makes |
| Pool.InitializeWithAccountsRejectsNoAccounts | main.go:29-67 | the corrected start-up reports the one-rejected-token file as having no usable account |
| Dispatch.CursorAfterPasses | main.go:95-108 | after k passes the cursor is k modulo the pool size |
| Dispatch.AttemptsAppend | main.go:97-102 | the send attempts of two traces in a row are those of the first followed by those of the second |
| Dispatch.CountsAppend | main.go:99-105 | successes and pauses of two traces in a row add up |
| Dispatch.PassAttemptsInOrder | main.go:97-102 | within a pass every message is attempted once, in list order, all with the session at the cursor, whatever earlier sends returned |
| Dispatch.AttemptsOfSend | main.go:97-105 | one send followed by its pause, if any, adds exactly that send to the attempts |
| Dispatch.PassPaced | main.go:99-105 | within a pass each pause directly follows a successful send, each successful send is directly followed by a pause, and pauses equal successes |
| Dispatch.SendPaced | main.go:99-105 | a single send with its pause after success keeps the pacing rule |
| Dispatch.PacedAppend | main.go:96-112 | passes that each keep the pacing rule keep it when run one after another |
| Dispatch.RunPaced | main.go:96-112 | over any number of passes every pause follows a successful send, so pauses equal successes |
| Dispatch.ExpectedStep | main.go:95-108 | the closed form of the first k passes is that of k-1 passes followed by pass k-1 with its session |
| Dispatch.RunAttempts | main.go:95-112 | over k passes, attempt j is message j mod m of pass j div m, sent by session (j div m) mod n, where m is the message count and n the pool size |
| Dispatch.AttemptCount | main.go:96-112 | k passes make exactly k times the message count of send attempts |
| Dispatch.EmptyMessages | main.go:97-108 | with no messages the passes still happen, but nothing is sent and nothing waits |
| Dispatch.SendPass | main.go:97-106 | the inner loop produces exactly the pass trace: every message in order, each success followed by a pause |
| Dispatch.StopRule | main.go:108-111 | the loop's exit test first holds after the last pass of the run: after n passes without looping, after the horizon with looping |
| Dispatch.MessageLoop | main.go:95-113 | the run is the pass sequence of the computed length; without looping it makes exactly n passes, ends with the cursor back at the first session and attempts n times the message count; the cursor is always the passes made modulo n; pauses equal successes and each follows one |
| Dispatch.StartMessageLoop | main.go:89-114 | an unreadable message file is the only error; otherwise the run is the pass sequence over the messages read |
| Dispatch.InitializeThenSend | main.go:144-167 | with the corrected start-up a run only starts with a non-empty pool; start-up errors pass through, and the run fails only on an unreadable message file |

## Left out

- The Discord library (`discordgo.New`, `Open`, `User("@me")`, `ChannelMessageSend`) is not modelled. Its outcomes are the `Provider` and `SendOracle` parameters.
- Logging and console output (`log.Printf`, `fmt.Printf`) are left out. They do not affect the state.
- `time.Duration` and `time.Sleep` become an integer `delay` recorded in `Sleep` events. No real time passes.
- Looping mode: the loop never ends. `Dispatch.MessageLoop` observes a finite `horizon` of passes, at least one, instead.
- File I/O is not modelled. A file is one of three cases.
- The scanner's 64 KiB line limit is left out. An over-long line is one way the scan fails, which is the `ScanFailed` case.
- Lines read before a scan error are left out. `readFile` returns them along with the error, but both callers discard them.
- Characters are Dafny `char` values, not UTF-8 bytes. Invalid UTF-8 is not modelled.
- `getInput`, the menu and `strconv.Atoi` parsing of the delay are not part of this model. Of `main`, only start-up followed by one dispatch run is modelled, by `Dispatch.InitializeThenSend`; `log.Fatalf` becomes an error result, and the deferred `Close` is `Pool.Close`.
- On a start-up error the Go code leaves the bot's session list as it was. The model returns an error value instead, with no pool.
- The channel ID is not modelled. It is the same for every send.
- Dispatch.PassTrace: the definition of one pass (main.go:97-106) carries no contract of its own. `Dispatch.PassAttemptsInOrder` and `Dispatch.PassPaced` describe it, and `Dispatch.SendPass` is proved equal to it.
- Dispatch.Rotate: the cursor step after a pass (main.go:108) carries no contract of its own. `Dispatch.CursorAfterPasses` describes where it leaves the cursor.
- Dispatch.RunPasses: the definition of k passes of the outer loop (main.go:95-112) carries no contract of its own. `Dispatch.CursorAfterPasses`, `Dispatch.RunAttempts` and `Dispatch.RunPaced` describe it, and `Dispatch.MessageLoop` is proved equal to it.
- Pool.Close: the sessions are returned in pool order and carry no contract of their own. Exactly-once release is stated by `Pool.SessionsReleasedOnce`.
- Dispatch.StartMessageLoop: requires a non-empty pool. With an empty pool the Go code panics, which is the finding below.

## Findings

| source | as written | input that shows it | evidently intended | confidence | as-written member | corrected member |
|---|---|---|---|---|---|---|
| main.go:66 | `Initialize` returns no error even when no token produced a usable session. `StartMessageLoop` then indexes an empty pool (main.go:98), or takes a remainder modulo zero (main.go:108) when there are no messages. Either way it panics, once `msg.txt` has been read. | a token file holding one token, `bad-token`, that the library rejects | start-up reports that no account is usable, and no run starts | not executed | Pool.OneRejectedToken | Pool.InitializeWithAccounts |
