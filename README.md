# Pozo Minerva community server, modelled in Dafny

Pozo Minerva is the neighbourhood site of the water-well project of zone 4 of
Mixco. Its Express/MySQL server offers:

- a group chat with media uploads, emoji reactions, typing and presence
  indicators, and a podcast message;
- a bot (PozoBot) that reads the recent chat every 30 seconds and may answer;
- a back-fill job that asks Gemini to describe uploaded images, audio and video;
- an FAQ chatbot with a daily question limit per session, grounded in the
  project's PDF documents;
- a public comment board with likes and paging;
- a catalogue of the five official PDF documents.

The client holds the list of the 34 neighbourhoods (colonias) offered at
registration, grouped by area.

This project models that core in Dafny, one module per source file:

| module | models |
|---|---|
| `Common` | optional values, JavaScript truthiness, `trim`, `split`/`join`, a stable sort for `ORDER BY`, filtering |
| `MessageStore` | `server/models/Message.js` |
| `ReactionStore` | `server/models/Reaction.js` |
| `OrderedMap` | a JavaScript `Map` |
| `TypingTracker` | `server/services/typingTracker.js` |
| `ActiveUsersTracker` | `server/services/activeUsersTracker.js` |
| `MultimediaAnalyzer` | `server/services/geminiAnalyzer.js` |
| `MultimediaBackfill` | `server/services/ensureMultimediaAnalysis.js` |
| `PdfContext` | `server/utils/pdfContext.js` |
| `BotAnalyzer` | `server/services/botAnalyzer.js` |
| `MessageRoutes` | `server/routes/messages.js` |
| `ChatSessionStore` | `server/models/ChatSession.js` |
| `ChatRoutes` | `server/routes/chat.js` |
| `CommentStore` | `server/models/Comment.js` |
| `CommentRoutes` | `server/routes/comments.js` |
| `PdfRoutes` | `server/routes/pdfs.js` |
| `Colonias` | `client/src/data/colonias.js` |

How each kind of entity is represented:

- **Database tables** are sequences of row datatypes in table order.
  - The read queries are functions over such a sequence.
  - The writes are methods of a class that owns the table. Their `ensures`
    tie the new table to a function of the old one.
  - `ORDER BY` is a stable sort, so rows with equal keys keep table order.
  - `AUTO_INCREMENT` is a `nextId` field.
- **The in-memory maps** of the typing and presence trackers are classes over
  an insertion-ordered map with distinct keys. Their sweeps are loops with
  invariants.
- **Module-level state** is a class:
  - the bot's `isAnalyzing` flag, its pending resets and its interval;
  - the PDF text memo.
- **Route handlers**:
  - Whatever a handler decides before touching a store is a function.
  - The handler itself is a method over the stores it touches.
  - A reply is `Success(data)` or `Failure(status, message)`.
- **Times, external answers and request fields**:
  - Time is a parameter: seconds for database timestamps, milliseconds for
    the timers and trackers.
  - The answers of OpenAI, Gemini, the file system and `pdf-parse` are
    parameters too, as functions or values.
  - A request field is an `Option<string>`. A field counts as present when
    it is truthy. The one exception is the body field `replyToId` of
    `POST /api/messages`, which is an `Option<nat>` (see "## Left out").

## Model

| member | source | states |
|---|---|---|
| MessageStore.GetById | server/models/Message.js:89-94 | the row found carries the requested id and is in the table; nothing is found exactly when no row has that id |
| MessageStore.GetByIdAt | server/models/Message.js:89-94 | with AUTO_INCREMENT ids, the lookup by a stored row's id returns that very row |
| MessageStore.Annotate | server/models/Message.js:21-25 | the LEFT JOIN preview is absent exactly when there is no reply id or no row with it; otherwise it holds that row's name, text and media type |
| MessageStore.AnnotateAll | server/models/Message.js:21-25 | every selected row is joined with its own preview, in the same order |
| MessageStore.ByCreated | server/models/Message.js:26 | `ORDER BY created_at ASC` yields a permutation of its input, sorted by creation time |
| MessageStore.GetRecent | server/models/Message.js:7-30 | `getRecent(limit)` returns min(limit, table size) rows: the first ones in ascending creation order, each with its preview. The doc comment at server/models/Message.js:5 calls them the latest 100; the model follows the `ORDER BY m.created_at ASC LIMIT ?` of lines 26-27, which gives the oldest |
| MessageStore.GetRecentKeepsOldest | server/models/Message.js:26-27 | every row left out by the limit is at least as new as every row returned, so the oldest rows come back |
| MessageStore.GetSince | server/models/Message.js:100-129 | `getSince(t)` returns exactly the rows created strictly after t's whole second, ascending, each with its preview, and as many as pass the filter |
| MessageStore.SinceSkipsCursorSecond | server/models/Message.js:103-124 | a row created in the cursor's own second is never returned |
| MessageStore.GetUnanalyzedRecent | server/models/Message.js:49-70 | exactly the rows not analyzed, not from the bot and at most 60 seconds old, in ascending creation order, each once |
| MessageStore.NewRow | server/models/Message.js:36-44 | the inserted row has the assigned id and time, no analysis and the flag unset |
| MessageStore.MarkAnalyzed | server/models/Message.js:78-83 | exactly the listed ids get the flag set, bot rows included; every other row is unchanged |
| MessageStore.MarkAnalyzedIdempotent | server/models/Message.js:78-83 | marking the same ids twice equals marking them once |
| MessageStore.MarkAnalyzedRemovesFromEligible | server/models/Message.js:63-83 | after marking, no listed id is eligible for the bot, and every eligible unlisted row stays eligible |
| MessageStore.SetAnalysis | server/services/ensureMultimediaAnalysis.js:36-39 | only the `media_analysis` of the row with that id changes |
| MessageStore.AppendThenGetById | server/models/Message.js:89-94 | a row appended with a larger id is found by its id, and every other lookup is unchanged |
| MessageStore.MessageTable.Create | server/models/Message.js:36-44 | appends exactly the new row and returns its AUTO_INCREMENT id, which a lookup then finds |
| MessageStore.MessageTable.MarkAsAnalyzed | server/models/Message.js:75-84 | a missing or empty list leaves the table unchanged; otherwise the table becomes `MarkAnalyzed` of the list |
| MessageStore.MessageTable.SetMediaAnalysis | server/services/ensureMultimediaAnalysis.js:36-39 | the table becomes `SetAnalysis` of the old table, and the ids stay valid |
| ReactionStore.FindKey | server/models/Reaction.js:8-16 | the position found holds a row of that (message, user) key; none is found exactly when no row has the key |
| ReactionStore.UpsertSpec | server/models/Reaction.js:7-19 | after `addOrUpdate` the key stays unique and its one row has the new emoji and time; an updated row keeps its stored colonia; rows of other keys are unchanged and in place |
| ReactionStore.FindKeyAt | server/models/Reaction.js:8-16 | with unique keys, the lookup of a stored row's key returns its own position |
| ReactionStore.UpsertTwiceOneRow | server/models/Reaction.js:8-16 | a repeated `addOrUpdate` adds no second row |
| ReactionStore.Removed | server/models/Reaction.js:24-31 | the rows left are exactly the rows of other keys |
| ReactionStore.RemovedCount | server/models/Reaction.js:24-31 | `affectedRows` is 1 when the key had a row and 0 otherwise |
| ReactionStore.RemovedKeysUnique | server/models/Reaction.js:24-31 | a delete keeps the other keys unique |
| ReactionStore.UserNames | server/models/Reaction.js:41 | the names listed are the rows' user names, one per row, in order |
| ReactionStore.EmojiSplit | server/models/Reaction.js:44 | the rows with an emoji and the rows without it together number all rows |
| ReactionStore.GroupsAreAggregates | server/models/Reaction.js:38-44 | each group is its emoji's count and its users in `created_at` order, with at least one row |
| ReactionStore.GroupsDistinct | server/models/Reaction.js:44 | no emoji has two groups |
| ReactionStore.GroupsCover | server/models/Reaction.js:44 | every emoji present among the rows has its group |
| ReactionStore.GroupsSum | server/models/Reaction.js:40-44 | the counts add up to the number of rows |
| ReactionStore.GroupsSpec | server/models/Reaction.js:38-44 | the four group facts together: aggregates, distinct, covering, counts summing to the rows |
| ReactionStore.GetByMessageSpec | server/models/Reaction.js:36-49 | `getByMessage` gives one group per distinct emoji on the message, with its exact count and users in `created_at` order, counts descending, summing to the message's reactions |
| ReactionStore.Dedup | server/models/Reaction.js:65-67 | the ids kept are the ids given, strictly increasing when the input was sorted |
| ReactionStore.Tagged | server/models/Reaction.js:60-66 | the tagged rows are the message's groups, one for one and in order, each tagged with its id |
| ReactionStore.GetByMessages | server/models/Reaction.js:54-55 | an empty id list gives `[]` |
| ReactionStore.FlattenSpec | server/models/Reaction.js:58-68 | the flattened rows are exactly the groups of the listed messages |
| ReactionStore.GetByMessagesSpec | server/models/Reaction.js:54-71 | `getByMessages` returns exactly the groups of the listed messages, each tagged with its message |
| ReactionStore.FlattenOrdered | server/models/Reaction.js:65-66 | the blocks of strictly increasing messages come out with message ids non-decreasing, counts non-increasing within a message, and no (message, emoji) pair twice |
| ReactionStore.GetByMessagesOrdered | server/models/Reaction.js:58-68 | `getByMessages` follows `ORDER BY message_id, count DESC` and has one row per (message, emoji) pair |
| ReactionStore.GetUserReaction | server/models/Reaction.js:76-84 | the emoji stored in the user's row for that message when it is non-empty, otherwise `null`: present exactly when the first row with that key has a non-empty emoji, and then equal to that emoji |
| ReactionStore.ReactionTable.AddOrUpdate | server/models/Reaction.js:7-19 | the table becomes the upsert of the old table, and keys stay unique |
| ReactionStore.ReactionTable.Remove | server/models/Reaction.js:24-31 | the table becomes the old table without that key, and the method returns that key's count of deleted rows, 0 or 1 |
| OrderedMap.Find | server/services/typingTracker.js:16-28 | the position found holds the key; none is found exactly when the key is absent |
| OrderedMap.Get | server/services/activeUsersTracker.js:17 | `map.get` is empty exactly when the key is absent, and otherwise is the value stored under it |
| OrderedMap.GetIn | server/services/activeUsersTracker.js:17 | with distinct keys, `get` finds exactly the stored pairs |
| OrderedMap.SamePairsSameGet | server/services/activeUsersTracker.js:17 | two maps holding the same pairs for a key answer `get` alike |
| OrderedMap.Set | server/services/typingTracker.js:16-20 | `map.set` keeps keys distinct, stores the value under the key, changes no other key's value or position, and grows the map only for a new key |
| OrderedMap.SetFacts | server/services/activeUsersTracker.js:17 | the replaced or appended entry keeps keys distinct and changes no other key |
| OrderedMap.Delete | server/services/typingTracker.js:28 | `map.delete` removes the key, changes no other key, and shrinks the map by one exactly when the key was present |
| OrderedMap.FilterKeysDistinct | server/services/typingTracker.js:40-50 | deleting entries while iterating keeps keys distinct |
| OrderedMap.DeleteSize | server/services/activeUsersTracker.js:25 | a delete removes one entry when the key was present and none otherwise |
| OrderedMap.Keys | server/services/activeUsersTracker.js:35-39 | the keys, one per entry, in insertion order |
| OrderedMap.FilterGet | server/services/typingTracker.js:40-50 | after a sweep, a key is found exactly when its entry passed the sweep's test |
| OrderedMap.DeleteFront | server/services/typingTracker.js:40-43 | during the walk, deleting the current entry's key drops exactly that entry |
| TypingTracker.TypingKeyCollision | server/services/typingTracker.js:15 | the key `name-colonia` does not separate the parts: ("a-b", "c") and ("a", "b-c") are two users with one key |
| TypingTracker.Fresh | server/services/typingTracker.js:40-50 | the entries a sweep keeps still have distinct keys |
| TypingTracker.UsersOf | server/services/typingTracker.js:45-48 | one `{userName, userColonia}` per entry, in order |
| TypingTracker.FreshIdempotent | server/services/typingTracker.js:35-53 | after a sweep every entry is at most 5000 ms old, and a second sweep at the same instant changes nothing |
| TypingTracker.FreshGet | server/services/typingTracker.js:41-43 | a sweep keeps a key's entry exactly when it is at most 5000 ms old |
| TypingTracker.SetThenSweep | server/services/typingTracker.js:14-41 | a user who signalled at t is listed by a sweep at now exactly when now - t <= 5000 |
| TypingTracker.UsersOfSnoc | server/services/typingTracker.js:45-48 | listing one more entry appends exactly its user |
| TypingTracker.FreshSnoc | server/services/typingTracker.js:40-50 | one more entry visited: kept exactly when it is fresh |
| TypingTracker.SweepKeep | server/services/typingTracker.js:44-49 | a fresh entry stays where it is and its user is listed |
| TypingTracker.SweepDrop | server/services/typingTracker.js:41-43 | a stale entry's key is deleted and nobody is listed |
| TypingTracker.Registry.SetUserTyping | server/services/typingTracker.js:14-21 | the map becomes `set` of the key `name-colonia` to the user with time now, and keys stay distinct |
| TypingTracker.Registry.RemoveUserTyping | server/services/typingTracker.js:26-29 | the map becomes `delete` of that key only, which changes nothing when the key is absent |
| TypingTracker.Registry.GetTypingUsers | server/services/typingTracker.js:35-53 | the loop deletes exactly the entries older than 5000 ms and returns one user per remaining entry, in insertion order |
| ActiveUsersTracker.ActiveKey | server/services/activeUsersTracker.js:16 | the key `name\|colonia` always contains the separator |
| ActiveUsersTracker.ParseKeyRoundTrip | server/services/activeUsersTracker.js:16-57 | splitting the key on `\|` gives back the name and colonia when neither contains `\|` |
| ActiveUsersTracker.ParseKeyPipeInName | server/services/activeUsersTracker.js:16-57 | a `\|` in the name breaks the round trip: ("a\|b", "c") is listed as ("a", "b") |
| ActiveUsersTracker.Alive | server/services/activeUsersTracker.js:31-41 | the entries a clean-up keeps still have distinct keys |
| ActiveUsersTracker.Users | server/services/activeUsersTracker.js:55-59 | one parsed user per entry, in order |
| ActiveUsersTracker.HeartbeatThenClean | server/services/activeUsersTracker.js:15-36 | a heartbeat at t survives a clean-up at now exactly when now - t <= 30000 |
| ActiveUsersTracker.AliveIdempotent | server/services/activeUsersTracker.js:31-41 | after a clean-up nobody left is expired, and a second clean-up changes nothing |
| ActiveUsersTracker.DeleteNextKey | server/services/activeUsersTracker.js:41 | each deletion removes one more collected key |
| ActiveUsersTracker.AliveWellFormed | server/services/activeUsersTracker.js:56-57 | every key left after a clean-up still contains the separator |
| ActiveUsersTracker.DeleteExpiredKeys | server/services/activeUsersTracker.js:35-41 | deleting the collected keys leaves exactly the live entries |
| ActiveUsersTracker.StaleSnoc | server/services/activeUsersTracker.js:35-39 | one more entry visited: its key is collected exactly when it is expired |
| ActiveUsersTracker.InactiveKeys | server/services/activeUsersTracker.js:33-39 | the first loop collects the keys of exactly the entries with now - ts > 30000, in insertion order |
| ActiveUsersTracker.Registry.SetUserActive | server/services/activeUsersTracker.js:15-18 | the map becomes `set` of `name\|colonia` to now, so repeated calls keep one entry |
| ActiveUsersTracker.Registry.RemoveUserActive | server/services/activeUsersTracker.js:23-26 | the map becomes `delete` of that key only |
| ActiveUsersTracker.Registry.CleanInactiveUsers | server/services/activeUsersTracker.js:31-46 | the map becomes exactly its entries with now - ts <= 30000 |
| ActiveUsersTracker.Registry.GetActiveUsers | server/services/activeUsersTracker.js:51-62 | it cleans up, then lists the key of each remaining entry split on `\|` |
| ActiveUsersTracker.Registry.GetActiveUsersCount | server/services/activeUsersTracker.js:67-70 | the count is the number of entries with now - ts <= 30000 |
| MultimediaAnalyzer.Locate | server/services/geminiAnalyzer.js:120-127 | a name resolves under `client/public` exactly when it starts with `/`, otherwise under `server/uploads`, and keeps the name |
| MultimediaAnalyzer.TrimTrailingSlashes | server/services/geminiAnalyzer.js:136 | `path.extname`'s first step: a prefix of the path with no trailing `/` |
| MultimediaAnalyzer.LastSegment | server/services/geminiAnalyzer.js:136 | the suffix after the last `/`, containing no `/` |
| MultimediaAnalyzer.LastDot | server/services/geminiAnalyzer.js:136 | the index of a `.` with no `.` after it |
| MultimediaAnalyzer.ExtName | server/services/geminiAnalyzer.js:136 | the extension is empty, or a `.` followed by no further `.` or `/` |
| MultimediaAnalyzer.ExtNameOfStemAndExt | server/services/geminiAnalyzer.js:136 | a name `stem.ext` without `/` has extension `.ext` |
| MultimediaAnalyzer.NoTrailingSlash | server/services/geminiAnalyzer.js:136 | a path not ending in `/` is left as it is |
| MultimediaAnalyzer.LastDotAt | server/services/geminiAnalyzer.js:136 | a `.` with no `.` after it is the last dot |
| MultimediaAnalyzer.ExtNameOfDotFile | server/services/geminiAnalyzer.js:136 | a dot file such as `.env` has no extension |
| MultimediaAnalyzer.MimeTables | server/services/geminiAnalyzer.js:139-166 | each kind's MIME type starts with the kind's prefix; listed extensions map to their own types, `.jpg` and `.mp3` to their aliases, and anything else to the kind's fallback |
| MultimediaAnalyzer.ImageMimeTable | server/services/geminiAnalyzer.js:141-145 | `.png`, `.jpeg`, `.webp` and `.gif` give `image/` plus the extension; `.jpg` and anything else give `image/jpeg` |
| MultimediaAnalyzer.VideoMimeTable | server/services/geminiAnalyzer.js:150-154 | `.mp4`, `.webm`, `.mov` and `.avi` give `video/` plus the extension; anything else gives `video/mp4` |
| MultimediaAnalyzer.AudioMimeTable | server/services/geminiAnalyzer.js:159-164 | `.wav`, `.ogg`, `.aac` and `.flac` give `audio/` plus the extension; `.mp3` and anything else give `audio/mpeg` |
| MultimediaAnalyzer.MimeFamily | server/services/geminiAnalyzer.js:139-166 | each kind's MIME type starts with the kind's own prefix |
| MultimediaAnalyzer.RequestFor | server/services/geminiAnalyzer.js:136-166 | a request is made exactly for `image`, `video` and `audio`, for the resolved file, with the MIME type of the lower-cased extension, in the message's own family |
| MultimediaAnalyzer.AnalyzeMultimedia | server/services/geminiAnalyzer.js:116-176 | a null name gives the general error text, a missing file gives "not found", an unsupported kind gives "not supported", and a Gemini answer to the request for an existing file is the result |
| MultimediaAnalyzer.AnalyzeMultimediaOutcome | server/services/geminiAnalyzer.js:44-176 | the result is Gemini's text exactly when an existing file of a supported kind got an answer to its request, and a fixed placeholder otherwise |
| MultimediaAnalyzer.GeminiFailurePlaceholder | server/services/geminiAnalyzer.js:44-107 | a failed Gemini call gives its kind's own placeholder |
| MultimediaAnalyzer.MissingBeforeUnsupported | server/services/geminiAnalyzer.js:129-169 | the existence check comes first: a missing file of an unsupported kind reports "not found" |
| MultimediaBackfill.PendingSpec | server/services/ensureMultimediaAnalysis.js:11-17 | the selection is exactly the rows with media and a `NULL` or `''` analysis, in ascending `created_at`, with no id twice |
| MultimediaBackfill.FileToAnalyze | server/services/ensureMultimediaAnalysis.js:32 | `media_filename` when truthy, otherwise `media_url` |
| MultimediaBackfill.Backfilled | server/services/ensureMultimediaAnalysis.js:27-46 | processing the selection keeps the table's size |
| MultimediaBackfill.BackfilledFrame | server/services/ensureMultimediaAnalysis.js:36-39 | only `media_analysis` is ever written, and a row that was not selected is left exactly as it was |
| MultimediaBackfill.BackfilledAt | server/services/ensureMultimediaAnalysis.js:32-45 | a selected row holds the analyzer's answer for it when its update succeeded, and its old analysis when the update failed; later rows are processed either way |
| MultimediaBackfill.NothingPendingNothingWritten | server/services/ensureMultimediaAnalysis.js:19-22 | with nothing selected, the table is unchanged |
| MultimediaBackfill.BackfillClearsPending | server/services/ensureMultimediaAnalysis.js:27-46 | when every update succeeds, every selected row ends up holding the analysis of its own file |
| MultimediaBackfill.BackfillStep | server/services/ensureMultimediaAnalysis.js:27-46 | one iteration processes the current row, then the rest |
| MultimediaBackfill.EnsureMultimediaAnalysis | server/services/ensureMultimediaAnalysis.js:8-52 | a failed selection changes nothing; otherwise the table becomes the backfill of the selection, row by row, skipping failed updates |
| MultimediaBackfill.ProcessRow | server/services/ensureMultimediaAnalysis.js:28-45 | one row: its analysis is written when its update succeeds, and nothing changes otherwise |
| PdfContext.DefaultContext | server/utils/pdfContext.js:57-126 | `getDefaultContext` is its template with the surrounding whitespace trimmed: no whitespace at either end, no longer than the template |
| PdfContext.DefaultIsBodyFor | server/utils/pdfContext.js:57-126 | whatever the lines between the first and the last, trimming the template removes exactly the newline before the text and the newline and indentation after it |
| PdfContext.DefaultIsBody | server/utils/pdfContext.js:57-126 | `getDefaultContext()` returns exactly the template's text, from its first line to its last |
| PdfContext.Truncate | server/utils/pdfContext.js:32-36 | a text of at most 500000 characters is kept whole; a longer one becomes its first 500000 characters plus the fixed marker |
| PdfContext.TruncateKeepsPrefix | server/utils/pdfContext.js:32-36 | the kept text is the PDF text itself, or its 500000-character prefix followed by exactly the marker |
| PdfContext.Load | server/utils/pdfContext.js:11-52 | a truthy memo is returned unchanged; a missing or unreadable file gives the default text and leaves the memo unset; parsed text is truncated, stored and returned |
| PdfContext.LoadMemoised | server/utils/pdfContext.js:12-46 | once a non-empty text is loaded, every later call returns it and keeps the memo, whatever the file holds |
| PdfContext.FailureRetries | server/utils/pdfContext.js:20-51 | after a failure the next call behaves as the first one did |
| PdfContext.EmptyTextReloads | server/utils/pdfContext.js:12-36 | an empty text is stored but is falsy, so the next call reads the file again |
| PdfContext.Loader.LoadPdfContext | server/utils/pdfContext.js:11-52 | the returned text and the new memo are those of `Load` on the old memo |
| PdfContext.Loader.ClearCache | server/utils/pdfContext.js:131-133 | the memo is cleared, so the next call reloads as a first call does |
| BotAnalyzer.SummaryLines | server/services/botAnalyzer.js:51-52 | one line `[name (colonia)]: text` per fetched message, in order, with `[archivo multimedia]` for an empty text |
| BotAnalyzer.SummaryOneLinePerMessage | server/services/botAnalyzer.js:51-53 | when no field holds a line break, splitting the joined summary on `\n` gives back exactly one line per message, in the order fetched |
| BotAnalyzer.BotText | server/services/botAnalyzer.js:116-129 | the bot posts exactly when the reply arrived and its trimmed text is neither empty nor `NO_RESPONDER`, and then it posts that trimmed text |
| BotAnalyzer.Decide | server/services/botAnalyzer.js:21-147 | a busy cycle is skipped; a cycle with nothing eligible ends without setting the flag; otherwise the fetched rows are exactly the eligible ones, and the outcome depends on the reply to their summary |
| BotAnalyzer.Ids | server/services/botAnalyzer.js:125 | the fetched messages' ids, in order |
| BotAnalyzer.NoAnswerNoWrite | server/services/botAnalyzer.js:22-147 | a skipped cycle, an empty one, or one whose model call throws writes nothing to the table |
| BotAnalyzer.AtMostOneMessage | server/services/botAnalyzer.js:116-144 | a cycle adds at most one row, and adds one exactly when it is not busy, found messages and got a non-empty reply other than `NO_RESPONDER` |
| BotAnalyzer.PostedMessage | server/services/botAnalyzer.js:130-139 | the posted row is PozoBot of `Sistema`, without media or reply target, flagged as the bot's, with the trimmed reply as its text |
| BotAnalyzer.MarksExactlyFetched | server/services/botAnalyzer.js:125-126 | an old row ends up flagged exactly when it was flagged before or was fetched, and nothing else about it changes |
| BotAnalyzer.AnsweredNotRefetched | server/services/botAnalyzer.js:125-126 | after an answered cycle, no later cycle fetches a fetched message again, nor the bot's own message |
| BotAnalyzer.AnsweredStepNotRefetched | server/services/botAnalyzer.js:125-139 | the same, for any answered outcome |
| BotAnalyzer.MarkedNotRefetched | server/services/botAnalyzer.js:125-139 | once the ids are marked, only unfetched rows of the old table are eligible, whatever bot rows are added |
| BotAnalyzer.UnflaggedWasThere | server/models/Message.js:78-83 | a row that marking left unflagged was already in the table |
| BotAnalyzer.FailedStaysEligible | server/services/botAnalyzer.js:96-147 | when the model call throws, nothing is marked, so a fetched message still inside the window is fetched again |
| BotAnalyzer.Pending | server/services/botAnalyzer.js:151-154 | the resets still pending are exactly those due after now |
| BotAnalyzer.ResetClearsFlag | server/services/botAnalyzer.js:148-155 | 3000 ms after a cycle that got past the busy check, the flag is clear |
| BotAnalyzer.CycleTimes | server/services/botAnalyzer.js:161-169 | the schedule the analyzer's recorded cycles follow: n cycles have n start times |
| BotAnalyzer.CycleTimesSpaced | server/services/botAnalyzer.js:164-168 | the first cycle runs at start, and each later one 30000 ms after the previous |
| BotAnalyzer.CycleTimesAt | server/services/botAnalyzer.js:168 | cycle k runs at start + k * 30000 |
| BotAnalyzer.Analyzer.IsBotTyping | server/services/botAnalyzer.js:174-176 | `isBotTyping` is exactly the busy flag |
| BotAnalyzer.Analyzer.AdvanceTo | server/services/botAnalyzer.js:151-154 | when the clock reaches now, every due reset fires and the flag clears if any was due |
| BotAnalyzer.Analyzer.AnalyzeRecentMessages | server/services/botAnalyzer.js:21-156 | the outcome is `Decide` on the old state; the flag is set exactly when messages were found; a reset 3000 ms ahead is scheduled unless the cycle was skipped; the table becomes `RowsAfter`, and the next id goes up by one exactly when a reply was posted |
| BotAnalyzer.Analyzer.Start | server/services/botAnalyzer.js:161-169 | one cycle runs at once, the interval is armed 30000 ms ahead, and the recorded cycles are the first one of the schedule from the start time |
| BotAnalyzer.Analyzer.IntervalTick | server/services/botAnalyzer.js:168 | when the interval fires, due resets fire first, then a cycle runs on that state, and the interval re-arms 30000 ms later; the cycles stay on the schedule, cycle k at the start time plus k times 30000 ms |
| MessageRoutes.MediaTypeOf | server/routes/messages.js:122-137 | the stored `media_type` is one of `none`, `image`, `audio`, `video`, and `none` without a file |
| MessageRoutes.AllowedMimeHasMedia | server/routes/messages.js:30-52 | every MIME type the upload filter accepts classifies as image, audio or video, and as image exactly when it starts with `image/` |
| MessageRoutes.PostMessageOutcome | server/routes/messages.js:47-154 | 500 exactly for a refused upload, with the global error handler's message `Error interno del servidor` (server/server.js:79-86); 400 exactly when name or colonia is missing, or text and file both are, with the message of the first failing check; otherwise the message created carries the request's name, colonia, text (or `""`), reply id, no analysis, not from the bot, with URL and file name exactly when a file was sent |
| MessageRoutes.AcceptedHasContent | server/routes/messages.js:114-154 | every accepted message has text or media, media exactly when a file was sent, published under `/uploads/` with its stored name |
| MessageRoutes.UploadQueuedForAnalysis | server/routes/messages.js:127-154 | an accepted upload's row is one the multimedia backfill selects, and it reads the file from the server's uploads directory by its stored name |
| MessageRoutes.PostMessage | server/routes/messages.js:102-162 | a rejected request changes nothing and is answered with its status; an accepted one appends exactly its row under the next id and answers with that row |
| MessageRoutes.PostReaction | server/routes/messages.js:199-245 | 400 unless name, colonia and emoji are present, then 404 for an unknown message, both without a write; otherwise the upsert and the message's grouped reactions |
| MessageRoutes.DeleteReaction | server/routes/messages.js:251-283 | 400 without a name and no write; otherwise the user's reaction is removed and the message's grouped reactions returned |
| MessageRoutes.ReactThenRead | server/routes/messages.js:222-230 | after a reaction is posted, the user's reaction on that message reads back as the emoji sent |
| MessageRoutes.RemoveThenRead | server/routes/messages.js:265-268 | after a reaction is deleted, the user has no reaction on that message |
| MessageRoutes.TypingStart | server/routes/messages.js:313-338 | 400 and no change without name and colonia; otherwise the user's typing entry is set at now |
| MessageRoutes.TypingStop | server/routes/messages.js:344-369 | 400 and no change without name and colonia; otherwise the user's typing entry is deleted |
| MessageRoutes.Heartbeat | server/routes/messages.js:397-422 | 400 and no change without name and colonia; otherwise the user's last heartbeat becomes now |
| MessageRoutes.PodcastId | server/routes/messages.js:472-494 | 404 exactly when no message is an audio of `Pozo Minerva` from `Información`; otherwise the id of such a message that no other is older than |
| MessageRoutes.NoneSelected | server/routes/messages.js:475-484 | the ordered selection is empty exactly when no row is selected |
| MessageRoutes.FirstSelected | server/routes/messages.js:475-482 | otherwise its first row is a selected row of the table |
| MessageRoutes.FirstOfSorted | server/routes/messages.js:480 | the first row of the ordered selection is one of the rows ordered |
| MessageRoutes.NoneSelectedOlder | server/routes/messages.js:480-481 | no selected row is older than the first row of the selection |
| MessageRoutes.SortedFirstLeast | server/routes/messages.js:480 | in a list ordered by `created_at` ascending no element is older than the first |
| ChatSessionStore.FirstLive | server/models/ChatSession.js:8-15 | the row found is a row of the table with that id, unexpired or without expiry; none exactly when no such row exists |
| ChatSessionStore.FirstWithId | server/models/ChatSession.js:24-29 | the re-select by id returns a row with that id, and none exactly when the id is absent |
| ChatSessionStore.GetOrCreate | server/models/ChatSession.js:5-33 | `getOrCreate` as written always returns a row with the requested id |
| ChatSessionStore.GetOrCreateSpec | server/models/ChatSession.js:5-33 | an existing live session is returned unmodified with no write; otherwise exactly one row is appended with count 0 expiring 24 hours ahead, and the row returned is that one only for a new id, else the table's first, expired row of the id |
| ChatSessionStore.AsWrittenReturnsExpired | server/models/ChatSession.js:17-29 | with an expired, used-up row of the id in the table, the insert happens and yet the re-select returns the expired row, still at its limit |
| ChatSessionStore.GetOrCreateIntendedSpec | server/models/ChatSession.js:5-33 | `getOrCreate` as intended returns a live session of that id; an existing one unchanged, otherwise exactly one appended row with count 0 expiring 24 hours ahead |
| ChatSessionStore.GetOrCreateIntendedStable | server/models/ChatSession.js:5-33 | as intended, a second `getOrCreate` at the same time returns the same session and writes nothing |
| ChatSessionStore.AsWrittenAgainstIntended | server/models/ChatSession.js:5-33 | the code as written writes the same table as intended, and returns the same session exactly when a live one exists or the id is new |
| ChatSessionStore.FirstWithIdAppend | server/models/ChatSession.js:24-29 | after an insert the re-select still returns the first older row of the id, and returns the inserted row only when the id was absent |
| ChatSessionStore.FirstLiveAppend | server/models/ChatSession.js:8-15 | a live row appended when none was live is the one the lookup then finds |
| ChatSessionStore.GetOrCreateStable | server/models/ChatSession.js:5-33 | after `getOrCreate` the table holds a live session of the id; a second call writes nothing and returns it, which is the first call's row exactly when that row was live |
| ChatSessionStore.Incremented | server/models/ChatSession.js:38-41 | the update adds one to the count of every row with that id and leaves the other rows as they were |
| ChatSessionStore.IncrementedLive | server/models/ChatSession.js:36-53 | after the increment the live session of that id is the one found before, with one more question counted |
| ChatSessionStore.HasReachedLimit | server/models/ChatSession.js:56-63 | the check writes what `getOrCreate` writes and compares with the limit the live session's count, else the count of the table's first (expired) row of the id, and a new id only reaches a limit of at most 0 |
| ChatSessionStore.FreshNotLimited | server/models/ChatSession.js:17-22 | as intended, a session created by the check is never at a positive limit |
| ChatSessionStore.Cleaned | server/models/ChatSession.js:66-75 | the kept rows are exactly the table's rows whose expiry is not past |
| ChatSessionStore.CleanedKeepsLive | server/models/ChatSession.js:66-75 | cleaning never changes which session a lookup at the same time finds |
| ChatSessionStore.ExpiringNowSurvivesClean | server/models/ChatSession.js:66-71 | a row expiring exactly now is no longer live but is not deleted either |
| ChatSessionStore.SessionTable.GetOrCreateSession | server/models/ChatSession.js:5-33 | the new table and the returned session are those of `getOrCreate` as written; the session has the id and the table then holds a live one |
| ChatSessionStore.SessionTable.IncrementMessageCount | server/models/ChatSession.js:36-53 | the table becomes the incremented table and the result is the first row of that id after the update |
| ChatSessionStore.SessionTable.HasReachedLimitAt | server/models/ChatSession.js:56-63 | the new table and the answer are those of the limit check |
| ChatSessionStore.SessionTable.CleanExpired | server/models/ChatSession.js:66-75 | the table keeps exactly the unexpired rows and the result counts the rows deleted |
| ChatRoutes.MessageLimit | server/routes/chat.js:41 | the limit is the parsed setting unless it is unset, not a number or 0, when it is 5 |
| ChatRoutes.Validate | server/routes/chat.js:26-38 | a request passes exactly when message and session id are present and the message has at least 3 characters |
| ChatRoutes.InvalidChangesNothing | server/routes/chat.js:26-38 | an invalid request is answered 400 and the table is unchanged |
| ChatRoutes.OverLimitNotCounted | server/routes/chat.js:40-50 | a request is answered 429 exactly when the row `getOrCreate` returned is at the limit, and then no count is raised: the old rows stay and at most the check's fresh row is added |
| ChatRoutes.CountedOnce | server/routes/chat.js:52-53 | past the limit check every row of the id goes up by exactly one, whatever the model replies, and the live session is found one question further on |
| ChatRoutes.ReplyPassedOn | server/routes/chat.js:83-112 | past the limit check, a failed model call is answered with the status the route passes on, and every completion, `null` content included, is answered 200 with that content unchanged |
| ChatRoutes.IncrementedFound | server/routes/chat.js:42-86 | after the check and the increment, the re-read finds the live session the check left, one question further on, and writes nothing |
| ChatRoutes.RemainingAfterIncrement | server/routes/chat.js:86-94 | an answer reports the limit minus the live session's count after the increment, between 0 and the limit: one less than the checked count when the check saw the live row, the limit minus one when it saw an expired row |
| ChatRoutes.ExpiredSessionRefusedOnce | server/routes/chat.js:40-94 | a used-up, expired, uncleaned session gets 429 on its first request, where the intended check would pass, and its next request is answered with 4 remaining |
| ChatRoutes.StatusConsistent | server/routes/chat.js:117-131 | used plus remaining is the limit, the limit is reached exactly when nothing remains, and the status and its write agree with the check `POST` makes |
| ChatRoutes.PostChat | server/routes/chat.js:21-114 | the handler's new table and reply are those of the chat function: 400, then 429, then the increment, then the model's answer or its error status |
| ChatRoutes.Reply | server/routes/chat.js:83-112 | past the increment, a model error is passed on with its status; a completion, `null` content included, is answered with that content and the remaining questions of the re-read session |
| ChatRoutes.GetStatus | server/routes/chat.js:117-140 | the status route returns the session's used and remaining questions and whether the limit is reached, creating the session if needed |
| CommentStore.GetById | server/models/Comment.js:57-64 | the row found is a row of the table with that id; none exactly when no row has the id |
| CommentStore.GetByIdAt | server/models/Comment.js:57-64 | under the increasing primary key, the row found for a stored row's id is that row |
| CommentStore.Newest | server/models/Comment.js:21 | the ordering is a permutation of the table with `created_at` non-increasing |
| CommentStore.GetAll | server/models/Comment.js:18-28 | the page has `min(limit, total - offset)` rows (none past the end), and its i-th row is the `offset + i`-th row of the newest-first order |
| CommentStore.GetAllNewestFirst | server/models/Comment.js:18-28 | a page holds only rows of the table, newest first |
| CommentStore.GetAllPages | server/models/Comment.js:21 | the page of `a` rows at `offset` followed by the page of `b` rows at `offset + a` is the page of `a + b` rows at `offset`: paging neither skips nor repeats a row |
| CommentStore.LatestHeadsFirstPage | server/models/Comment.js:21 | a comment created after every other row heads the first page |
| CommentStore.LikesIncremented | server/models/Comment.js:43-46 | the update keeps the number of rows |
| CommentStore.LikesIncrementedRows | server/models/Comment.js:43-46 | every row with that id has one more like and every other row is unchanged |
| CommentStore.LikeKeepsIds | server/models/Comment.js:43-46 | the like leaves every id in place, so the key stays increasing |
| CommentStore.LikeUnknown | server/models/Comment.js:43-46 | a like of an unknown id changes nothing |
| CommentStore.LikeFound | server/models/Comment.js:41-54 | the re-read after the like finds the comment with its count raised by one |
| CommentStore.LikeOthersUnchanged | server/models/Comment.js:43-46 | a lookup of any other id finds what it found before |
| CommentStore.AppendThenGetById | server/models/Comment.js:7-11 | a row inserted under a larger id is found by `getById` |
| CommentStore.CommentTable.Create | server/models/Comment.js:5-15 | one row is appended with the next id, no likes and the insertion time; the result is its id and fields with `likes: 0`, and `getById` finds it |
| CommentStore.CommentTable.GetCount | server/models/Comment.js:31-38 | the count is the number of rows |
| CommentStore.CommentTable.IncrementLikes | server/models/Comment.js:41-54 | the table becomes the incremented table and the result is the re-read row of that id |
| CommentRoutes.PageLimit | server/routes/comments.js:8 | the limit is the parsed parameter unless it is missing, not a number or 0, when it is 50 |
| CommentRoutes.PageOffset | server/routes/comments.js:9 | the offset is the parsed parameter, or 0 when it is missing or not a number |
| CommentRoutes.ListComments | server/routes/comments.js:6-32 | 500 exactly for a negative limit or offset; otherwise the page of `getAll` with the total, the limit, the offset and `hasMore = offset + limit < total` |
| CommentRoutes.HasMoreIffNextPage | server/routes/comments.js:21 | `hasMore` holds exactly when the page after this one is non-empty |
| CommentRoutes.DefaultPage | server/routes/comments.js:8-21 | without parameters the list is the newest 50 comments, and `hasMore` says whether there are more than 50 |
| CommentRoutes.ValidateComment | server/routes/comments.js:40-60 | the first failing check, in order: a missing field, a name over 100 characters, a comment under 10 characters; or none |
| CommentRoutes.ValidAccepted | server/routes/comments.js:40-60 | a comment passes exactly when all fields are non-empty, the name has at most 100 characters and the comment at least 10 |
| CommentRoutes.PostComment | server/routes/comments.js:35-77 | a rejected comment is answered 400 with its message and the table is unchanged; otherwise 201 with the created comment, appended to the table |
| CommentRoutes.LikeComment | server/routes/comments.js:80-108 | 404 and no change for an unknown id; otherwise the like is counted and the comment is returned with one more like |
| PdfRoutes.Catalogue | server/routes/pdfs.js:5-56 | the catalogue has five entries, with ids 1 to 5 in order |
| PdfRoutes.IdsDistinct | server/routes/pdfs.js:5-56 | no two entries share an id |
| PdfRoutes.ListPdfs | server/routes/pdfs.js:59-65 | the list is the whole catalogue and its total is 5 |
| PdfRoutes.Find | server/routes/pdfs.js:70 | the entry found is an entry with that id; none exactly when no entry has it |
| PdfRoutes.GetPdf | server/routes/pdfs.js:68-83 | a failure is 404 `PDF no encontrado`; a success is a catalogue entry with the parsed id |
| PdfRoutes.GetPdfExactly | server/routes/pdfs.js:68-83 | the lookup succeeds exactly for the ids 1 to 5, and returns the entry at that position |
| PdfRoutes.ByCategory | server/routes/pdfs.js:86-95 | the filtered list holds exactly the catalogue's entries of that category, and its total is its length |
| PdfRoutes.AmbientalListed | server/routes/pdfs.js:86-95 | `ambiental` lists the first entry alone |
| PdfRoutes.TecnicoListed | server/routes/pdfs.js:86-95 | `tecnico` lists the second, third and fourth entries, in order |
| PdfRoutes.KeepsMiddle | server/routes/pdfs.js:88 | a filter of five entries that keeps the three middle ones and neither end gives those three |
| PdfRoutes.LegalListed | server/routes/pdfs.js:86-95 | `legal` lists the last entry alone |
| PdfRoutes.OtherCategoryEmpty | server/routes/pdfs.js:86-95 | any other category lists nothing, with total 0 |
| Colonias.CategoryNameInjective | client/src/data/colonias.js:4-43 | two entries have the same `category` string exactly when they are in the same area |
| Colonias.Places | client/src/data/colonias.js:2-44 | the table has 34 entries |
| Colonias.Row | client/src/data/colonias.js:2-44 | every place has a row of the table, and the place at that row is itself |
| Colonias.ColoniaList | client/src/data/colonias.js:2-44 | the `colonias` array has 34 entries, the i-th made of the i-th place and the i-th category |
| Colonias.Grouped | client/src/data/colonias.js:47-68 | five groups, each with its heading in order and as options the table's entries of its area in table order |
| Colonias.AreasListed | client/src/data/colonias.js:47-68 | every area has a group and no area has two |
| Colonias.PartitionOf | client/src/data/colonias.js:50-66 | grouping any table by the five areas puts each entry in the group of its area and in no other |
| Colonias.GroupedPartition | client/src/data/colonias.js:47-68 | each entry of the table is in exactly one group, the group of its area |
| Colonias.UniformFilter | client/src/data/colonias.js:50-66 | filtering a run of one area by category keeps all of it or none of it |
| Colonias.RunsOfTable | client/src/data/colonias.js:3-43 | the table is six runs of one area each: San Nicolás, Naranjo, Montserrat, Naranjo, Minerva, Otras |
| Colonias.RunOf | client/src/data/colonias.js:4-43 | rows with one category column value form a run of that area |
| Colonias.FilterRuns | client/src/data/colonias.js:50-66 | filtering the table is filtering each of its six runs, in order |
| Colonias.FilterSixRuns | client/src/data/colonias.js:50-66 | a filter of a list cut in six pieces is the concatenation of the filters of the pieces |
| Colonias.GroupOfArea | client/src/data/colonias.js:50-66 | the group of an area is the concatenation of the runs of that area, so Naranjo's group joins the entries of rows 6 and 10 to 14 |
| Colonias.GroupSizes | client/src/data/colonias.js:47-68 | the groups hold 5, 6, 3, 4 and 16 entries, 34 in all |
| Colonias.ValuesDistinct | client/src/data/colonias.js:4-43 | no two entries share a place or a `value` |
| Colonias.ValueFingerprint | client/src/data/colonias.js:4-43 | each `value` has the length and the fourth and last characters its fingerprint lists |
| Colonias.PrintRoundTrip | client/src/data/colonias.js:4-43 | reading each place's fingerprint back gives the place |
| Colonias.PrintInjective | client/src/data/colonias.js:4-43 | distinct places have distinct fingerprints |
| Colonias.ValueInjective | client/src/data/colonias.js:4-43 | distinct places have distinct values |
| Colonias.LabelIsValue | client/src/data/colonias.js:4-43 | every entry's `label` is its `value`, except the last, `Otra`, labelled `Otra (especificar en comentario)` |
| Common.OrElse | server/services/ensureMultimediaAnalysis.js:32 | `a \|\| b` on nullable strings: `a` when it is truthy, else `b` |
| Common.TrimStart | server/services/botAnalyzer.js:116 | drops exactly the leading whitespace: the result is a suffix starting with a non-space, and every dropped character is a space |
| Common.TrimEnd | server/services/botAnalyzer.js:116 | drops exactly the trailing whitespace: the result is a prefix ending with a non-space, and every dropped character is a space |
| Common.Trim | server/services/botAnalyzer.js:116 | `trim()` gives the infix `s[i..j]` of the input such that everything before `i` and from `j` on is whitespace and the infix has no whitespace at either end; it is empty exactly when the input is all whitespace, and an already trimmed string is left alone |
| Common.TrimStrips | server/services/botAnalyzer.js:116 | the two passes leave an infix of the input with only whitespace dropped on either side |
| Common.TrimFacts | server/services/botAnalyzer.js:116 | the facts `Trim` promises, proved of the two passes |
| Common.TrimInfix | server/services/botAnalyzer.js:116 | trimming both ends leaves nothing exactly when every character is whitespace |
| Common.TrimIdempotent | server/services/botAnalyzer.js:116 | trimming twice is trimming once |
| Common.TrimAround | server/utils/pdfContext.js:57-126 | whitespace around a non-empty trimmed text is exactly what `trim()` removes: the result is that text |
| Common.TrimOfInfix | server/services/botAnalyzer.js:116 | when only whitespace lies outside an infix that starts and ends with a visible character, the two passes keep exactly that infix |
| Common.TrimStartAt | server/services/botAnalyzer.js:116 | the leading pass stops at the first visible character |
| Common.TrimEndFrom | server/services/botAnalyzer.js:116 | the trailing pass stops after the last visible character |
| Common.TrimmedBetween | server/utils/pdfContext.js:58-125 | a text whose first piece starts and whose last piece ends with a visible character is non-empty and trimmed, whatever lies between |
| Common.IndexOf | server/services/activeUsersTracker.js:57 | the first position of the separator: it holds the separator and no earlier position does |
| Common.Split | server/services/activeUsersTracker.js:57 | `split` gives at least one piece, none containing the separator, a single piece exactly when the separator is absent |
| Common.Join | server/services/botAnalyzer.js:53 | joining two or more pieces puts the separator in the result |
| Common.SplitJoin | server/services/activeUsersTracker.js:16-57 | splitting a join gives the pieces back when no piece contains the separator |
| Common.FirstIndex | server/services/activeUsersTracker.js:57 | a position holding the separator with none before it is the one `split` cuts at |
| Common.ToLowerAscii | server/services/geminiAnalyzer.js:136 | `toLowerCase()` on ASCII letters: same length, each character lowered on its own |
| Common.Filter | server/models/Message.js:63-65 | a `WHERE` keeps every row that passes and nothing else, in table order |
| Common.FilterConcat | server/models/Message.js:63-65 | filtering distributes over concatenation |
| Common.FilterOne | server/routes/pdfs.js:88 | filtering one element keeps it exactly when it passes |
| Common.FilterCut | server/routes/pdfs.js:88 | filtering a slice cut in two is filtering the two halves |
| Common.FilterEq | server/models/Message.js:63-65 | filters that agree on every element select the same rows |
| Common.FilterFilter | server/models/Message.js:63-65 | filtering twice is filtering once by the conjunction |
| Common.FilterAll | server/routes/pdfs.js:88 | a filter that passes every element changes nothing |
| Common.FilterMember | server/models/Message.js:63-65 | whatever the filter keeps comes from the input and passes |
| Common.FilterNone | server/routes/pdfs.js:88 | a filter that passes no element leaves nothing |
| Common.InsertBy | server/models/Message.js:26 | inserting adds exactly the one element |
| Common.InsertBySorted | server/models/Message.js:26 | inserting into a sorted list keeps it sorted |
| Common.SortBy | server/models/Message.js:26 | `ORDER BY key ASC` gives a permutation of the rows with the key non-decreasing |
| Common.SortByMembers | server/models/Message.js:26 | sorting keeps exactly the elements it was given |
| Common.SumByConcat | server/models/Reaction.js:38-45 | a sum over a concatenation is the sum of the sums |
| Common.SumByInsert | server/models/Reaction.js:38-45 | inserting an element adds its value to the sum |
| Common.SumBySorted | server/models/Reaction.js:38-45 | ordering the groups does not change their total |
| Common.FilterDistinctBy | server/models/Reaction.js:38-45 | filtering keeps keys distinct |
| Common.InsertByMembers | server/models/Reaction.js:38-45 | after an insertion every element is the new one or an old one |
| Common.DistinctByInsert | server/models/Reaction.js:38-45 | inserting an element with a new key keeps keys distinct |
| Common.DistinctBySorted | server/models/Reaction.js:45 | ordering keeps keys distinct |

## Left out

- Foreign calls are inputs rather than behaviour:
  - MySQL itself, its connection pool and its errors. A query that fails is modelled only where the code branches on it: the backfill's selection and per-row updates, and the bot's model call.
  - The OpenAI and Gemini requests, `pdf-parse`, and the `fs` calls `existsSync`, `readFileSync` and `unlinkSync`.
  - multer's disk storage and its 50 MB size limit.
- The random upload file name (`Date.now()` plus a random suffix, server/routes/messages.js:24-27) is an input field of the uploaded file.
- Removing the uploaded file when creating the message fails (server/routes/messages.js:167-174) is file-system work and is not modelled.
- Timers and the event loop are not modelled.
  - Each request and each bot cycle runs atomically, at a time passed in.
  - The bot's reset timers and its interval are explicit due times that the caller fires with `AdvanceTo` and `IntervalTick`.
  - The periodic sweeps of the two trackers (server/services/typingTracker.js:58-60, server/services/activeUsersTracker.js:73) are the same sweep operations, called by the caller.
- `getSince` ignores time zones. The cursor is an integer number of milliseconds, truncated to whole seconds as its ISO string is; `created_at` is integer seconds.
- Ties in `ORDER BY` keep table order. SQL leaves their order open, and so does the `SELECT` without `ORDER BY` in `ChatSession`, which is taken to return rows in table order.
- Sizes and characters are simplified:
  - String lengths count Dafny characters, not UTF-16 code units.
  - `toLowerCase` lowers ASCII letters only.
  - `parseInt` of a query or environment value is an input: the parsed integer, or none for `NaN`.
  - The URL parameters `:messageId` and `:id` are taken as already-coerced numbers. MySQL's string-to-number comparison is not modelled.
  - The multipart body field `replyToId` of `POST /api/messages` is a string in the source, and server/routes/messages.js:152 stores `replyToId || null` as sent. The model takes it as already converted to a number, with `None` for a missing or falsy value. MySQL's coercion of a non-numeric string into `reply_to_id`, which can fail or store 0 depending on the SQL mode, is not modelled.
- Long constants are represented by shorter values:
  - The 34 neighbourhood names and the 5 PDF documents are enumerations, with their strings as functions.
  - The default PDF context is assembled from its lines.
- ReactionStore.ReactionTable.AddOrUpdate: the method's result `result.insertId || result.affectedRows` (server/models/Reaction.js:18) is not modelled, because no caller reads it.
- `getByMessage` and `getByMessages` return `users` as the list of names. The source's `GROUP_CONCAT` returns one comma-joined string, cut at MySQL's `group_concat_max_len` (1024 bytes by default); the join and the cut are not modelled.
- String comparisons are exact. The `WHERE` and `GROUP BY` clauses and the unique keys compare names, emojis and session ids under the column's collation, which is commonly case-insensitive in MySQL; the collation is not part of the sources, and the model compares characters exactly.
- The unique key on (message_id, user_name) that `ON DUPLICATE KEY UPDATE` relies on is assumed as a table invariant. No schema file states it.
- Only the sentinel reply `NO_RESPONDER` matters; the wording of the bot's and the chatbot's prompts is out of scope.
- The GET routes that only forward to a model or tracker and wrap the result are not modelled as separate handlers. The functions they call are modelled:
  - `GET /api/messages`, `/since/:timestamp` and `/bot/typing`;
  - `GET /:messageId/reactions`;
  - `GET /typing`, `/active` and `/active/count`.
- Every route's `catch` that answers 500 on a thrown database error is not modelled, except the 500 for a negative comment `limit` or `offset`, a MySQL error that the request alone can cause.
- Logging (`console.log`, `console.error`) is not modelled.
- Chat provider: the call itself is a function of the question; an error without an HTTP response, such as an empty `choices` list, is `Failed(500)`; `null` content is `Completed(None)` and is sent back as `response: null`; and the error text in the body of a failure is not modelled.
- Excluded as bootstrapping, connection setup or constant configuration:
  - server/server.js, apart from the status and message of its global error handler, which a refused upload reaches
  - server/config/db.js
  - server/config/openai.js
  - server/middleware/cors.js
- The client's React components, pages and axios service are user interface and are not part of this model.

## Findings

| source | as written | input that shows it | evidently intended | confidence | as-written member | corrected member |
|---|---|---|---|---|---|---|
| server/models/ChatSession.js:24-29 | when no live session exists, `getOrCreate` inserts a fresh row but returns the first row of `SELECT * ... WHERE session_id = ?`, which may be an older, expired row of the same id. This assumes `session_id` carries no UNIQUE or PRIMARY KEY constraint; no schema is among the sources, and with such a key the INSERT would fail and `POST /api/chat` would answer 500 instead. `cleanExpired` (server/models/ChatSession.js:66-75) has no caller in the sources, so expired rows are never deleted and the input is reachable | table `[Session("s", 5, Some(0))]`, id `"s"`, now `1`: the fresh row is inserted, yet the expired row with count 5 is returned, so `POST /api/chat` answers 429 for a session that should have been renewed (ChatRoutes.ExpiredSessionRefusedOnce); the next request finds the fresh row | return the row just inserted: a live session with count 0 expiring 24 hours ahead | not executed | ChatSessionStore.AsWrittenReturnsExpired | ChatSessionStore.GetOrCreateIntendedSpec |

The store's class and the chat routes follow `getOrCreate` as written. `ChatSessionStore.GetOrCreateIntended` is the correction, and `ChatSessionStore.AsWrittenAgainstIntended` states exactly where the two differ: they write the same table, and return different rows only when the id has rows but none of them is live.
