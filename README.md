# Cooperative crosswords — a Dafny model of the core

Cooperative crosswords lets a team solve a Guardian cryptic crossword
together. The server imports crosswords from the Guardian's site and turns
each one into a renderable grid with clue lists. Over a WebSocket it relays
every letter a team member types to the others solving the same crossword in
the same team (a *room*). It also keeps the team's solution in a table keyed
by (crossword id, team id).

This project models the core of that server in Dafny:

- `crossword_service.dfy` (module `CrosswordService`) covers the grid
  derivation of `guardian_to_crossword_dto`, reading crossword numbers from
  the series page's links, and the filter that picks the numbers not yet
  imported. Its proofs state what every grid square means in terms of the
  entries, and that the clue lists hold exactly the clues of each direction.
- `parse_int.dfy` (module `ParseInt`) covers Rust's `str::parse::<i64>`,
  which the link reader uses.
- `solution_service.dfy` (module `SolutionService`) covers the merge of a
  batch of edits into the stored solution, the write-back, and the read for
  a newcomer. The store is a class whose field is a map. The merge is
  proved square by square: last writer wins, untouched squares keep their
  item, repeated letters keep their author, and a second merge of the same
  batch is a no-op.
- `ws_session.dfy` (module `WsSession`) covers one connection as a class.
  Its state is the heartbeat time `hb` and a stopped flag, plus logs of what
  it sends to the client and to the registry.
- `ws_server.dfy` (module `WsServer`) covers the session registry
  `MoveServer` as a class with a map field and one method per message.
- `errors.dfy` (module `Errors`) covers the error type, its display text
  and its HTTP status.
- `api_models.dfy`, `guardian.dfy` and `wrappers.dfy` hold the plain data
  types and `Option`/`Result`.

Clocks, UUIDs, the network, the database, HTML scraping and JSON
encoding/decoding are not modelled as code. Their outcomes are parameters:
an integer clock `now`, a session id, a `fault` argument (the failure's message) for each database
call that can fail, and `encode`/`decode` functions for JSON.

Three behaviours of the code are easy to mistake, and the model follows the code in each:

- The registry broadcasts the whole incoming batch, not just the changed
  squares. It sends it to every session of the room, the sender included
  (src/services/ws_server.rs:50-60, 107).
- The merged solution is written back even when the batch changed nothing
  (src/services/solution_service.rs:52-58).
- A `Connect` whose solution read fails replies with the error's display
  text, not with an empty list (src/services/ws_server.rs:79-82).

## Model

| member | source | states |
|---|---|---|
| Errors.Display | src/models/errors.rs:13-24 | an internal error displays as "Something went wrong: " followed by its message; a missing crossword displays as "Could not find crossword for id: " followed by its id |
| Errors.ToStatusCode | src/models/errors.rs:26-31 | the status is 500 exactly for an internal error and 404 exactly for a missing crossword |
| Errors.FromString | src/models/errors.rs:63-67 | a string becomes an internal error (status 500) whose display text is the prefix followed by the string unchanged |
| Errors.FromSelectorError | src/models/errors.rs:57-61 | a selector error becomes an internal error whose message is "Invalid selector: " followed by the selector error's text |
| Errors.ParseDisplay | src/models/errors.rs:13-24 | any error read back from a text displays as exactly that text |
| Errors.DisplayRoundTrip | src/models/errors.rs:13-24 | reading the display text back gives the original error, so the text loses nothing |
| Errors.DisplayInjective | src/models/errors.rs:13-24 | two errors with the same display text are the same error |
| ParseInt.AccumulatePositive | src/services/crossword_service.rs:56 | reading digits gives a value in 0..i64::MAX, or fails with an invalid-digit or positive-overflow error |
| ParseInt.AccumulateNegative | src/services/crossword_service.rs:56 | reading the digits of a negative number gives a value in i64::MIN..0, or fails with an invalid-digit or negative-overflow error |
| ParseInt.ParseI64 | src/services/crossword_service.rs:56 | a parsed value is within the i64 range; the empty-input error happens exactly for the empty text |
| ParseInt.Decimal | src/services/crossword_service.rs:53-56 | the decimal text of a number is non-empty and all digits |
| ParseInt.AccumulateDecimal | src/services/crossword_service.rs:56 | the digits of any n up to i64::MAX accumulate to n, or to -n after a minus sign |
| ParseInt.ParseDecimal | src/services/crossword_service.rs:56 | parsing the decimal text of any n up to i64::MAX gives n |
| ParseInt.ParseNegativeDecimal | src/services/crossword_service.rs:56 | parsing a minus sign followed by the decimal text of n gives -n |
| ParseInt.NonDigitRejected | src/services/crossword_service.rs:56 | a text with a non-digit anywhere after the sign never parses |
| ParseInt.Describe | src/services/crossword_service.rs:59 | the display text of a parse error is never empty |
| ParseInt.DescribeInjective | src/services/crossword_service.rs:59 | different kinds of parse error display different texts, so the message of the resulting internal error names the kind |
| CrosswordService.GuardianToDtoDirection | src/services/crossword_service.rs:145-150 | the API direction is Across exactly when the Guardian direction is Across, and Down exactly when it is Down |
| CrosswordService.ToInterimClue | src/services/crossword_service.rs:128-144 | an entry yields one placement per square, its length but never fewer than one |
| CrosswordService.InterimClueShape | src/services/crossword_service.rs:128-144 | the squares after the first come first, each one step further and without a number; the first square, with the entry's number, comes last |
| CrosswordService.AllPlacements | src/services/crossword_service.rs:108-112 | there are at least as many placements as entries, and every entry's first square, with its clue and number, is among them |
| CrosswordService.GroupByIndex | src/services/crossword_service.rs:108-113 | an index is grouped exactly when some placement lands on it, and its group lists those placements' candidates in production order |
| CrosswordService.CandidatesOfEntry | src/services/crossword_service.rs:128-144 | with at least one column, an entry places exactly one candidate on each square it covers and none elsewhere; that candidate shows the number only on the entry's first square |
| CrosswordService.CandidatesOfEntries | src/services/crossword_service.rs:108-113 | the candidates grouped at an index are those of the entries covering it, in entry order |
| CrosswordService.GetCell | src/services/crossword_service.rs:152-172 | the cell is black exactly when no candidate or an empty list is given; otherwise its main clue is the first candidate's, its second clue the second candidate's if there is one, and its number the first candidate's number or else the second's |
| CrosswordService.GetCellIgnoresRest | src/services/crossword_service.rs:161-167 | candidates after the second never change the cell |
| CrosswordService.CellOfCandidates | src/services/crossword_service.rs:152-172 | the cell built from the covering entries' candidates is black when there are none, and otherwise carries the first two entries' clues and the first number either of them shows |
| CrosswordService.Grid | src/services/crossword_service.rs:114-116 | the grid has one cell per index 0..cols*rows, and none when that product is not positive |
| CrosswordService.GuardianToCrosswordDto | src/services/crossword_service.rs:93-126 | the DTO keeps the column and row counts, has a cell per index, and has as many clues as there are entries |
| CrosswordService.GridCellMatchesEntries | src/services/crossword_service.rs:93-172 | with at least one column, every square is what the entries covering it determine: black when there are none, otherwise the first two covering entries' clues in entry order and the first number of those two |
| CrosswordService.BlackIffUnoccupied | src/services/crossword_service.rs:152-172 | a square is black exactly when no entry covers it |
| CrosswordService.WhiteCellClueCoversIt | src/services/crossword_service.rs:161-169 | a white square's main clue belongs to an entry that covers that square |
| CrosswordService.NumberedIffStart | src/services/crossword_service.rs:156-160 | when at most two entries cover a square, it shows a number exactly when some entry starts there |
| CrosswordService.ExpectedNumberIffStart | src/services/crossword_service.rs:156-160 | the same, stated on the cell the covering entries determine |
| CrosswordService.OneAcrossEntryGrid | src/services/crossword_service.rs:93-126 | a 3x1 grid with one across entry of length 3 at the origin gives three white squares of clue 1-across, the first numbered 1, and a single across clue |
| CrosswordService.Partition | src/services/crossword_service.rs:94-98 | the first part holds only across entries of the list and the second only down entries, and together they are as long as the list |
| CrosswordService.PartitionPermutation | src/services/crossword_service.rs:94-98 | together the two parts hold every entry exactly as often as the list does |
| CrosswordService.PartitionCovers | src/services/crossword_service.rs:94-98 | every across entry is in the first part and every down entry in the second |
| CrosswordService.PartitionAppendAcross | src/services/crossword_service.rs:94-98 | the across part of a concatenation is the concatenation of the across parts, so entry order is kept |
| CrosswordService.PartitionAppendDown | src/services/crossword_service.rs:94-98 | the down part of a concatenation is the concatenation of the down parts, so entry order is kept |
| CrosswordService.ToClues | src/services/crossword_service.rs:99-107 | each clue is the number and clue text of the entry at the same place |
| CrosswordService.PartClues | src/services/crossword_service.rs:99-107 | a part's clue list holds exactly the clues of the entries of that part's direction |
| CrosswordService.CluesMatchEntries | src/services/crossword_service.rs:93-126 | the across list holds exactly the clues of the across entries, and the down list exactly those of the down entries |
| CrosswordService.RemoveAll | src/services/crossword_service.rs:53-55 | deleting every occurrence of a pattern never lengthens the text |
| CrosswordService.RemoveAllAbsent | src/services/crossword_service.rs:53-55 | a text lacking a character of the pattern is left unchanged |
| CrosswordService.RemoveAllChar | src/services/crossword_service.rs:55 | after deleting every "/" no "/" is left |
| CrosswordService.SeriesUrl | src/services/crossword_service.rs:43 | the series URL is the crosswords URL followed by the series name |
| CrosswordService.KeptHrefs | src/services/crossword_service.rs:47-51 | the page never yields more kept links than it has links |
| CrosswordService.KeptHrefsMeaning | src/services/crossword_service.rs:47-51 | a text is kept exactly when it is a present link of the page that starts with the series URL |
| CrosswordService.HrefNumber | src/services/crossword_service.rs:52-57 | a link that parses gives a number within the i64 range |
| CrosswordService.CollectNumbers | src/services/crossword_service.rs:46-58 | on success there is one number per kept link, each within the i64 range |
| CrosswordService.CollectNumbersMeaning | src/services/crossword_service.rs:46-58 | on success there is one number per kept link, each the parse of that link with the series URL and every "/" removed, in page order; on failure the error is that of the first kept link that does not parse |
| CrosswordService.RecentCrosswordNumbers | src/services/crossword_service.rs:41-60 | the numbers are read exactly when every kept link parses, one per kept link; a failure is an internal error whose message is the parse-error text of the first kept link that does not parse |
| CrosswordService.HrefRoundTrip | src/services/crossword_service.rs:43-59 | a page whose only link is the series URL, a "/" and the decimal text of n yields exactly [n] |
| CrosswordService.CollectSingle | src/services/crossword_service.rs:46-58 | a single kept link that parses yields exactly its number |
| CrosswordService.NewCrosswordNumbers | src/services/crossword_service.rs:68-72 | a number is selected exactly when it is among the recent numbers and not among the stored ones; the selection is never longer than the recent list |
| CrosswordService.NoNewWhenAllStored | src/services/crossword_service.rs:71 | when every recent number is already stored, nothing is selected |
| CrosswordService.NothingNewAfterStoring | src/services/crossword_service.rs:62-91 | after the selected numbers are stored, a second import with the same page selects nothing |
| SolutionService.Stamp | src/services/solution_service.rs:19-27 | every incoming edit keeps its square and letter and is attributed to the sending user |
| SolutionService.ToPositionMap | src/services/solution_service.rs:32-35 | the stored items become a map keyed by position, with every item under its own position and exactly the positions that occur |
| SolutionService.ToPositionMapLastItem | src/services/solution_service.rs:32-35 | every value of the map is an item of the stored list, the last one the list holds for that position |
| SolutionService.ToPositionMapDistinct | src/services/solution_service.rs:32-35 | when the list holds one item per position, each item is found under its own position |
| SolutionService.ApplyEdit | src/services/solution_service.rs:37-50 | an edit is written when its square is empty or holds a different letter; otherwise the stored item, author included, stays; no other square changes |
| SolutionService.Merge | src/services/solution_service.rs:37-50 | merging keeps every item under its own position; the squares afterwards are the stored ones plus the edited ones |
| SolutionService.MergeIntoPositions | src/services/solution_service.rs:32-50 | the loop over the stamped edits produces the merge of the batch into the stored items keyed by position |
| SolutionService.IntoValues | src/services/solution_service.rs:56 | the merged map becomes a list with one item per position, from which the same map is rebuilt |
| SolutionService.ApplyToCell | src/services/solution_service.rs:40-48 | on one square the edit's letter is always there afterwards; the edit replaces an empty square or a different letter, and a repeated letter keeps the stored item |
| SolutionService.MergeAt | src/services/solution_service.rs:37-50 | each square's result depends only on its stored item and the batch's edits to that square, in batch order |
| SolutionService.CellFoldLastValue | src/services/solution_service.rs:41-48 | after one or more edits a square holds the letter of the last edit |
| SolutionService.CellFoldKeepsEqual | src/services/solution_service.rs:44-48 | edits that repeat the stored letter leave the stored item, author included |
| SolutionService.CellFoldOneSender | src/services/solution_service.rs:37-50 | on one square, one sender's edits leave the stored item when all repeat its letter, and otherwise leave the last edit |
| SolutionService.CellFoldIdempotent | src/services/solution_service.rs:37-50 | on one square, applying one sender's edits a second time changes nothing |
| SolutionService.MergeUntouched | src/services/solution_service.rs:37-50 | a square the batch does not touch keeps its item, or stays empty |
| SolutionService.MergeLastWriterWins | src/services/solution_service.rs:37-50 | each square the batch touches ends with the letter of the batch's last edit there |
| SolutionService.MergeKeepsRepeatedLetter | src/services/solution_service.rs:44-48 | a square whose edits all repeat the stored letter keeps the stored item and its author |
| SolutionService.MergeKeepsEarlierBatch | src/services/solution_service.rs:37-50 | a later batch that does not touch a square keeps the letter an earlier batch wrote there |
| SolutionService.MergeIdempotent | src/services/solution_service.rs:19-50 | merging the same sender's batch again into the merged solution changes nothing |
| SolutionService.SolutionStore.constructor | src/services/solution_db_actions.rs:17-63 | a new store holds no solution |
| SolutionService.SolutionStore.GetSolution | src/services/solution_db_actions.rs:17-37 | the stored list of the (crossword, team) key, None when there is none, or an internal error carrying the failure's message |
| SolutionService.SolutionStore.StoreOrUpdateSolution | src/services/solution_db_actions.rs:39-63 | on success the list replaces whatever was stored under the key and one row is reported; on failure the result is an internal error carrying the failure's message and nothing changes |
| SolutionService.StoredOrEmpty | src/services/solution_service.rs:28-30 | a missing solution reads as the empty list |
| SolutionService.ReplaceKeepsOthers | src/services/solution_db_actions.rs:54-58 | replacing the list under one key leaves every other key's list as it was |
| SolutionService.UpdateSolution | src/services/solution_service.rs:12-60 | a failed read or write returns an internal error with that failure's message and leaves the store as it was; otherwise the result is "Success" and the room's stored list is the merge of the stamped batch into the old one, one item per square, with every other room untouched |
| SolutionService.EncodeSolution | src/services/solution_service.rs:70 | an encoding error becomes an internal error carrying the encoder's message |
| SolutionService.RetrieveAndSendSolution | src/services/solution_service.rs:62-71 | a failed read returns an internal error with its message; a room with nothing stored is sent the encoding of the empty list; otherwise its stored list is encoded |
| WsSession.TimeoutBoundary | src/services/ws_session.rs:117 | silence of exactly ten seconds is tolerated and eleven is not |
| WsSession.HeartbeatKeepsAlive | src/services/ws_session.rs:115-125 | a tick within ten seconds of the last heartbeat never times out |
| WsSession.TimedOut | src/services/ws_session.rs:117 | on a clock of whole seconds, a session has timed out exactly when eleven or more seconds have passed since the last heartbeat |
| WsSession.Session.Info | src/services/ws_session.rs:18-26 | the copy carried in messages has the session's id, heartbeat, user, team and crossword |
| WsSession.Session.constructor | src/services/ws_session.rs:103-111 | a new session has the given id, user, team and crossword, its heartbeat at the creation time, is running, and has sent nothing |
| WsSession.Session.Stop | src/services/ws_session.rs:53-58 | stopping marks the session stopped and tells the registry it is gone, once |
| WsSession.Session.Started | src/services/ws_session.rs:31-51 | starting a running session registers it with the registry; an answer is written to the client, and a failed request stops the session, which tells the registry it is gone |
| WsSession.Session.HandleFrame | src/services/ws_session.rs:61-92 | on a running session: Ping and Pong set the heartbeat to now and Ping is answered with a pong of the same payload; Binary is echoed; Close and Continuation stop the session and tell the registry once; Nop and protocol errors change nothing; decodable text sends exactly one Move with the batch and this session as sender; undecodable text changes nothing; only Close and Continuation stop it |
| WsSession.Session.Tick | src/services/ws_session.rs:114-126 | on a running session, after more than ten silent seconds it tells the registry twice that it is gone and stops; otherwise it keeps running; a ping goes out on every tick |
| WsSession.Session.Deliver | src/services/ws_session.rs:94-100 | on a running session, text from the registry is written to the client and nothing else changes |
| WsServer.Recipients | src/services/ws_server.rs:50-60 | every delivery's session is among the sessions reached |
| WsServer.MoveServer.Room | src/services/ws_server.rs:53 | the room of a sender is exactly the registered sessions with the sender's crossword and team |
| WsServer.MoveServer.DeliverySnoc | src/services/ws_server.rs:50-60 | one more delivery to a new session keeps deliveries addressed and one per session, and adds that session to those reached |
| WsServer.MoveServer.constructor | src/services/ws_server.rs:40-47 | a new registry has no sessions |
| WsServer.MoveServer.SendToRoom | src/services/ws_server.rs:51-60 | the sessions reached are exactly the sender's room, the sender included, each once, at its registered mailbox, with the same text |
| WsServer.MoveServer.BroadcastMoves | src/services/ws_server.rs:50-61 | a batch that encodes reaches every session of the room once, the sender included, each with the text of the whole batch, and each delivery goes to the session registered with that id; a batch that does not encode reaches nobody |
| WsServer.MoveServer.HandleConnect | src/services/ws_server.rs:68-83 | the session is registered under its id, replacing an earlier registration, and every registration stays under its own id; the reply is the stored solution's text or the error's display text, and a failed read always replies "Something went wrong: " followed by the failure's message |
| WsServer.MoveServer.HandleDisconnect | src/services/ws_server.rs:86-92 | exactly that id is removed, removing an absent id changes nothing, and afterwards no registration carries that session, so no room reaches it |
| WsServer.MoveServer.HandleMove | src/services/ws_server.rs:94-114 | the batch is merged into the room's stored solution; only when that succeeds is the whole batch broadcast to the room; on failure nothing is stored or sent; the sessions never change |
| WsServer.RecipientsSnoc | src/services/ws_server.rs:50-60 | one more delivery adds exactly its session to those reached |
| WsServer.SenderCounted | src/services/ws_server.rs:50-60 | deliveries reaching exactly the room, each session once, are as many as the room's sessions, and the sender receives one when it is in the room |
| WsServer.DistinctRecipientsCount | src/services/ws_server.rs:50-60 | deliveries to distinct sessions are as many as the sessions they reach |

## Left out

- The HTTP routes, `main`, the scraper entry points and the Diesel queries. The solution table is the `SolutionStore` map; a `fault` argument gives the message of each pool, query or decoding failure, which the store turns into an internal error as every error path of the queries does. The crossword table is not part of this model.
- Fetching and parsing HTML (`get_document`, `scrape_crossword`, the CSS selectors). The series page is given as its list of `href` attributes. `update_crosswords` is modelled only through its filter (`NewCrosswordNumbers`); the scraping, JSON conversion and storing around it are left out.
- JSON encoding and decoding (serde) are the parameters `encode` and `decode`. The model does not fix their output; they are assumed to be functions, so the same batch always encodes to the same text.
- BroadcastMoves: the source encodes the batch once per recipient; the model encodes it once before the loop. The two agree because the encoding is a function of the batch. A failed encoding is only logged and is not modelled.
- Actor runtime: mailboxes, futures, `block_on` and the interval timer are left out. Each handler is a method that runs to completion. `Tick` is one run of the one-second interval, and `Started` covers the `Connect` request and its reply.
- Clocks and UUIDs: `now` is an integer number of seconds and the session id is a parameter. `Instant` and `Uuid::new_v4` are not modelled.
- Printing of errors (`println!`) is not modelled; those branches change nothing else.
- CrosswordService.GuardianToCrosswordDto: the index `x + y * columns` and the grid size `cols * rows` are unbounded integers. The source's i64 overflow is not modelled.
- CrosswordService.GridCellMatchesEntries: proved only for grids with at least one column. With zero or fewer columns, different squares of a down entry can share an index.
- CrosswordService.NumberedIffStart: assumes at most two entries cover the square. With more, the source ignores all but the first two, and the model keeps that behaviour.
- CrosswordService.RemoveAll: its own contract states only that the text does not grow. What it removes is stated by RemoveAllAbsent, RemoveAllChar and HrefRoundTrip.
- WsSession: `SolutionItemApi` is treated as the same shape as `SolutionItemDto`. src/models/api_models.rs does not define it.
- Errors.FromString also stands for the `From` conversions of blocking, JSON, pool, HTTP-client and integer-parse errors (src/models/errors.rs:33-55, 69-73). Each of those is the foreign error's display text wrapped as an internal error, and the foreign error types themselves are not modelled.
- Errors.FromSelectorError takes the selector error's display text; the selector error type itself is not modelled.
