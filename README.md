# A verified model of the suggestion bot's store and handlers

This project models the core of a Discord suggestion bot in Dafny.

The source defines the following behaviour. Members post suggestions in a
channel. The bot keeps each suggestion in a SQLite table and gives it a
discussion thread and up/down vote buttons. The author or an administrator
can edit a suggestion from inside its thread, deleting the message deletes
the suggestion, and a periodic pass refreshes the author names the bot
shows. The shipped entry point registers only the message and button
handlers (see "## Left out"), so the edit and deletion handlers are
modelled as written but are not reachable in the program as it stands.

With the Discord calls taken out, what remains is a sequential, stateful
system:

- **Store** (`Database`). The tables are a `Store` class:
  - `suggestions` is a map from `id` to row;
  - `votes` is a map keyed by `(suggestion_id, user_id)`;
  - `history` is the edit history as a sequence;
  - `lastId` is the AUTOINCREMENT counter.

  Each prepared query is a method with a full postcondition on the new
  state, except `getUserVote`, a read-only function. The table constraints are the class invariant `Valid()`:
  - ids are keys;
  - `message_id` is UNIQUE;
  - the CHECK on `vote_type`;
  - both foreign keys.
- **Vote toggle** (`VoteHandler`). `handleInteraction` decodes the button,
  finds the suggestion and toggles the user's vote (insert, overwrite or
  remove). It then recounts. `Toggle` is its specification on the vote
  map, and lemmas give the tally movement for each of the three cases.
- **Edit workflow** (`EditCommand`):
  - `execute` is the permission gate;
  - `handleModalSubmit` runs the ordered guard chain (`EditGuard`) and then
    the two writes;
  - `updateAuditMessage` builds the transcript (`Blocks`/`Transcript`) in a
    loop.

  The form's custom id is proved to read back as the suggestion id it was
  built from.
- **Creation** (`MessageCreate`). The filters, the insert with no thread,
  the thread-name rule, and the binding of the thread to the new row.
- **Deletion** (`MessageDelete`). Lookup by message id, then a delete that
  cascades to votes and history. A second delete is a no-op.
- **Nickname reconciliation** (`SyncNicknames`):
  - the loop over the last seven days' rows is proved against `Resynced`,
    the table after a whole pass;
  - the count is proved to be the number of rows rewritten;
  - a second pass is proved to change nothing.
- **JavaScript built-ins** (`JsText`). The built-ins the handlers depend on:
  - `trim`, with the ECMAScript white-space set;
  - `parseInt`: leading white space, sign, `0x` prefix, longest digit
    prefix, NaN as `None`;
  - `split`;
  - number-to-text in template literals.

Everything outside the process becomes a parameter: the clock (`now`), the
current member names, and whether a Discord fetch, send or edit succeeds.

## Model

| member | source | states |
|---|---|---|
| Database.TallyOf | src/database.ts:64-70 | upvotes is the number of 'up' votes on that suggestion and downvotes the number of 'down' votes; when every type is valid they add up to the number of votes on it |
| Database.VotesOnAreOnePerVoter | src/database.ts:25 | a suggestion has exactly as many votes as distinct voters, so UNIQUE(suggestion_id, user_id) means no user is counted twice |
| Database.FirstInThreadUnique | src/commands/edit.ts:33 | the row a lookup by thread id returns is unique |
| Database.FirstInThreadExists | src/commands/edit.ts:33-41 | a thread some row is linked to has a first row, so a linked thread always has the row the gate and the form handler work on |
| Database.IsVoteType | src/database.ts:22 | `CHECK(vote_type IN ('up', 'down'))`: exactly the two types are accepted; `UpsertVote` fails the CHECK for any other |
| Database.Store.Valid | src/database.ts:7-30 | the constraints of the tables: each row under its own AUTOINCREMENT id, UNIQUE message_id, the vote_type CHECK, and no orphan vote or history entry; every method that changes the store keeps it |
| Database.HistoryOf | src/commands/edit.ts:210 | each returned entry belongs to the suggestion asked for and is in the history table |
| Database.HistoryOfAppend | src/commands/edit.ts:134-141 | saving an entry puts it last in its own suggestion's history and leaves every other history unchanged |
| Database.HistoryWithout | src/events/messageDelete.ts:34 | after the cascade no entry of the deleted suggestion remains, and every remaining entry was there before |
| Database.HistoryWithoutKeepsOthers | src/events/messageDelete.ts:34 | the cascade empties the deleted suggestion's history and leaves every other suggestion's history as it was |
| Database.VotesWithout | src/database.ts:24 | ON DELETE CASCADE: exactly the votes not on the deleted suggestion remain, unchanged |
| Database.IdsOfAppend | src/database.ts:78-80 | adding a row to a result adds exactly its id to the result's id set |
| Database.TakeNewest | src/database.ts:79 | appending the newest pending row keeps the result current, newest first, duplicate-free and no older than any pending row |
| Database.ScanStep | src/database.ts:78-80 | one step of the ordered scan keeps the scan invariant: the taken rows plus the pending ids are exactly the matching ids |
| Database.NewestExists | src/database.ts:79 | a non-empty set of rows has a newest one (ORDER BY created_at DESC always has a first row) |
| Database.LeastExists | src/database.ts:79 | a non-empty set of ids has one with the least score |
| Database.RowsOfMatching | src/database.ts:78-80 | rows whose ids are exactly the matching ids are exactly the rows with created_at > since |
| Database.Store.constructor | src/database.ts:7-30 | a new database has empty tables and satisfies every constraint |
| Database.Store.CreateSuggestion | src/database.ts:35-38 | a duplicate message_id fails with the UNIQUE violation declared at src/database.ts:9-10 and changes nothing; otherwise the row is inserted under the next AUTOINCREMENT id, which is larger than every earlier id; votes and history are unchanged |
| Database.Store.GetSuggestionByMessageId | src/database.ts:41-43 | finds a row exactly when one has that message_id, and returns that row |
| Database.Store.GetSuggestionByThreadId | src/commands/edit.ts:92 | finds a row exactly when one has that thread_id, and returns the one with the smallest id |
| Database.Store.UpsertVote | src/database.ts:46-51 | an invalid type fails the CHECK; an unknown suggestion fails the foreign key; otherwise the pair's single entry becomes the new type and timestamp, whether or not it existed, and nothing else changes |
| Database.Store.RemoveVote | src/database.ts:54-56 | removes exactly that pair's vote and changes nothing else |
| Database.Store.GetUserVote | src/database.ts:59-61 | returns the pair's vote type exactly when the pair has a vote, and that type is 'up' or 'down' |
| Database.Store.CountVotes | src/database.ts:64-70 | returns the tally of the table, and upvotes + downvotes equals the number of distinct voters on the suggestion |
| Database.Store.UpdateThreadId | src/database.ts:73-75 | sets thread_id of that one row (if it exists) and changes nothing else |
| Database.Store.UpdateAuthorUsername | src/database.ts:83-85 | sets author_username of that one row (if it exists) and changes nothing else |
| Database.Store.UpdateSuggestionContent | src/commands/edit.ts:144 | sets content of that one row (if it exists) and changes nothing else |
| Database.Store.GetRecentSuggestions | src/database.ts:78-80 | returns exactly the current rows with created_at > since (strict), newest first, each once |
| Database.Store.SaveEditHistory | src/commands/edit.ts:134-141 | appends exactly one entry with the given fields when the suggestion exists; otherwise fails the foreign key and appends nothing |
| Database.Store.GetEditHistory | src/commands/edit.ts:210 | returns the suggestion's entries in insertion order |
| Database.Store.DeleteSuggestion | src/events/messageDelete.ts:34 | removes the row, all its votes and all its history entries; the AUTOINCREMENT counter is kept |
| VoteHandler.DecodeVoteType | src/events/interactionCreate.ts:10-13 | handled exactly when the id starts with `vote_`; `vote_up` exactly decodes to 'up'; every other `vote_` id decodes to 'down' |
| VoteHandler.HandleInteraction | src/events/interactionCreate.ts:7-61 | a non-button or non-vote id is ignored; an unknown message gives not-found with no vote changed; otherwise the votes become `Toggle` of the old votes and the reply kind is `EffectOf`; when the reply fails (interactionCreate.ts:36-56, caught at :76) the outcome is `Unconfirmed` with no recount, else the tally is recounted from the new table |
| VoteHandler.ToggleTouchesOnlyTheVoter | src/events/interactionCreate.ts:31-42 | afterwards the voter holds a vote of the clicked type unless it was a retraction, in which case they hold none; every other key is unchanged |
| VoteHandler.ToggleKeepsTypes | src/database.ts:22 | a toggle with a valid type keeps every stored type 'up' or 'down' |
| VoteHandler.VotesOfTypeAfterRemove | src/database.ts:54-56 | removing a vote removes exactly its key from its type's vote set |
| VoteHandler.VotesOfTypeAfterSet | src/database.ts:46-51 | overwriting a vote moves its key into the set of the new type and out of every other type's set |
| VoteHandler.ToggleRetractTally | src/events/interactionCreate.ts:33-35 | clicking the type already held lowers that type's tally by one and leaves the other |
| VoteHandler.ToggleCastTally | src/events/interactionCreate.ts:40-42 | a first vote raises its type's tally by one and leaves the other |
| VoteHandler.ToggleChangeTally | src/events/interactionCreate.ts:42 | switching sides moves exactly one vote from the old type's tally to the new one's |
| VoteHandler.ToggleOtherTally | src/events/interactionCreate.ts:31-42 | a click on one suggestion leaves every other suggestion's tally unchanged |
| VoteHandler.ToggleTwiceFromNone | src/events/interactionCreate.ts:33-42 | from no vote, the same button twice is a cast and then a retraction, and restores the table |
| VoteHandler.UpUpDownDown | src/events/interactionCreate.ts:33-42 | from no vote, up/up/down/down gives tallies +1/0, back to start, 0/+1, back to start |
| EditCommand.ParseModalCustomId | src/commands/edit.ts:57 | `parseInt(customId.split('_')[2])` of `edit_suggestion_<id>` gives back `id` for every integer id |
| EditCommand.SplitModalCustomId | src/commands/edit.ts:88 | the form's custom id splits at `_` into `edit`, `suggestion` and the id text |
| EditCommand.Execute | src/commands/edit.ts:22-64 | outside a thread the result is not-in-thread; in an unlinked thread it is not-linked; otherwise the modal (custom id from the row id, prefilled with its content) is offered exactly to the author or an administrator; nothing is changed |
| EditCommand.EditGuard | src/commands/edit.ts:94-118 | each of not-found, too-short, no-change and pass holds exactly when its condition and none of the earlier ones holds |
| EditCommand.GuardOrder | src/commands/edit.ts:94-118 | a wrong id is reported even when the content is too short or unchanged; a too-short content even when unchanged |
| EditCommand.LengthBoundary | src/commands/edit.ts:103 | a changed content of exactly 10 characters passes; one of 9 is too short |
| EditCommand.OfferedFormMatches | src/commands/edit.ts:57 | the form the gate offers for a suggestion never fails the id check for that suggestion |
| EditCommand.EditorName | src/commands/edit.ts:123-131 | the member's display name when the fetch succeeds, the username otherwise |
| EditCommand.Preview | src/commands/edit.ts:223-224 | content of at most 100 characters is shown whole; longer content is shown as its first 100 characters and `...`, 103 characters in all |
| EditCommand.Block | src/commands/edit.ts:222-224 | the block of entry i starts with the label "Versão i+1" |
| EditCommand.BlocksPrefix | src/commands/edit.ts:217-225 | block k follows exactly the blocks of the entries before it, and all of these open the transcript of any longer history |
| EditCommand.BlocksAppend | src/commands/edit.ts:217-225 | one more entry adds its block at the end and changes nothing before it |
| EditCommand.BuildAuditContent | src/commands/edit.ts:215-225 | the loop's string is the header followed by one block per history entry, in history order |
| EditCommand.UpdateAuditMessage | src/commands/edit.ts:198-212 | no transcript without an audit message id (null or empty), outside a thread, or with an empty history; otherwise the transcript of the suggestion's whole history |
| EditCommand.HandleModalSubmit | src/commands/edit.ts:88-179 | a failing guard rejects with no change; a failed `deferReply` (edit.ts:120) gives `FailedBeforeSave` with no change; otherwise, exactly one entry (old = stored, new = trimmed) is appended and the content becomes the trimmed input; the outcome is an edit exactly when the channel is a thread and the Discord calls after the writes (the message refresh and the final `editReply` at edit.ts:181) succeed, and `FailedAfterSave` otherwise; the tally and transcript are read after the writes |
| EditCommand.EditKeepsChain | src/commands/edit.ts:134-144 | an accepted edit keeps the history a chain: each entry starts where the previous ended, and the last ends at the stored content |
| EditCommand.EditKeepsOtherHistories | src/commands/edit.ts:134-141 | an edit leaves every other suggestion's history as it was |
| MessageCreate.ThreadName | src/events/messageCreate.ts:62-64 | content of at most 100 characters is the name; longer content becomes its first 97 characters and `...`, exactly 100; never longer than 100 |
| MessageCreate.ThreadNameStable | src/events/messageCreate.ts:62-64 | a thread name is its own thread name, and what it keeps of the content is a prefix of it |
| MessageCreate.AuthorName | src/events/messageCreate.ts:25-26 | the member's display name, falling back to the username unless there is no member or it is empty |
| MessageCreate.HandleMessage | src/events/messageCreate.ts:8-73 | exactly bot messages and other channels are ignored; exactly empty or all-white-space content is discarded; these and a failed member fetch change nothing; otherwise the store changes as `Published` says |
| MessageCreate.Publish | src/events/messageCreate.ts:33-73 | a failed send or a duplicate message id stores nothing; otherwise one row with the next id, the sent message id, no thread, the author id, display name and untrimmed content is added, and it is bound to the started thread exactly when the gateway calls reach that point |
| MessageCreate.PublishedIdIsNew | src/events/messageCreate.ts:48 | a created suggestion's id was not in the table and is larger than every id there; every other row is unchanged |
| MessageDelete.HandleMessageDelete | src/events/messageDelete.ts:7-34 | no id, or a message that is no suggestion, changes nothing; otherwise that row, its votes and its history are removed, the thread delete is tried exactly when the row has a thread and the message a guild, and the message id is no longer a suggestion's |
| MessageDelete.DeletedMessageIsGone | src/events/messageDelete.ts:10-15 | after the delete no row carries that message id |
| MessageDelete.DeleteCascades | src/database.ts:24 | no vote or history entry of the deleted suggestion is left, its tally is 0/0, and every other suggestion keeps its tally and history |
| MessageDelete.DeleteTwice | src/events/messageDelete.ts:10-34 | a second delete of the same message finds no suggestion and changes nothing: the store ends exactly as the first delete left it, with the row, its votes and its history gone |
| SyncNicknames.RecentIds | src/services/syncNicknames.ts:29-30 | the recent ids are ids of the table |
| SyncNicknames.SyncNicknames | src/services/syncNicknames.ts:18-93 | a missing channel changes nothing; otherwise the table becomes `Resynced` (only recent rows, only those that need it, only their author name) and the count is the number of rows rewritten; votes and history are unchanged |
| SyncNicknames.SyncRows | src/services/syncNicknames.ts:38-92 | the loop rewrites exactly the examined rows that need it, and counts them |
| SyncNicknames.RecentRowsIds | src/services/syncNicknames.ts:30 | the rows read are current rows, and their ids are exactly the recent ids |
| SyncNicknames.ExamineNext | src/services/syncNicknames.ts:38 | each examined row is new to the loop and still as it was at the start |
| SyncNicknames.SkipRow | src/services/syncNicknames.ts:41-53 | an unresolvable member, an equal name, or a missing or embed-less message writes nothing and counts nothing |
| SyncNicknames.WriteRow | src/services/syncNicknames.ts:85-87 | a differing name is written into that row and the count rises by exactly one |
| SyncNicknames.PassChangesOnlyNames | src/services/syncNicknames.ts:29-87 | a pass keeps every row and every field except author_username; a row changes exactly when it is recent and needs it, and then gets the current name |
| SyncNicknames.CountBounded | src/services/syncNicknames.ts:36 | the count never exceeds the number of recent suggestions |
| SyncNicknames.SecondPassIsNoOp | src/services/syncNicknames.ts:29-49 | a second pass at the same or a later time, with the same names and the same refreshable messages, finds nothing to rewrite and leaves the table as the first pass left it |
| VoteHandler.Toggle | src/events/interactionCreate.ts:31-42 | the vote table after a click: a vote of the clicked type is removed, anything else becomes a vote of that type cast at `now`; HandleInteraction is proved against it and the Toggle lemmas give its tally effects |
| VoteHandler.EffectOf | src/events/interactionCreate.ts:33-57 | the reply a click earns: retracted for a vote of the same type, changed for one of the other type, cast when there is none |
| EditCommand.CanEdit | src/commands/edit.ts:44-47 | the author of the suggestion or an administrator may edit it |
| EditCommand.ModalCustomId | src/commands/edit.ts:57 | `edit_suggestion_` followed by the id's decimal text; ParseModalCustomId proves it reads back as the id |
| EditCommand.ParseSuggestionId | src/commands/edit.ts:88 | `parseInt` of the third `_`-separated piece, NaN (`None`) when there is no third piece |
| EditCommand.VersionLabel | src/commands/edit.ts:222 | the bold label "Versão i+1" of the i-th entry, counting from 0 |
| EditCommand.Blocks | src/commands/edit.ts:217-225 | one block per history entry, in history order; BlocksPrefix and BlocksAppend state where each block sits |
| EditCommand.Transcript | src/commands/edit.ts:203-225 | nothing without an audit message id (null or empty) or without history; otherwise the header followed by the blocks |
| MessageCreate.Published | src/events/messageCreate.ts:33-73 | the store after the publishing steps: unchanged when the send fails or the message id is taken; otherwise one new row under the next id, bound to its thread exactly when the embed edit and the thread start succeeded |
| MessageDelete.TriesThreadDelete | src/events/messageDelete.ts:20 | the thread delete is tried exactly when the row names a non-empty thread id and the message came from a guild |
| SyncNicknames.NeedsSync | src/services/syncNicknames.ts:41-53 | a row is rewritten exactly when its author resolves, the current display name differs from the stored one, and its message can be fetched, has an embed and accepts the edit |
| SyncNicknames.ResyncedOn | src/services/syncNicknames.ts:38-87 | the table after examining a set of rows: each of them that needs it carries its author's current name, every other row is as it was |
| SyncNicknames.StaleAmong | src/services/syncNicknames.ts:85-87 | the examined rows that get rewritten, a subset of those examined; the count is its size |
| SyncNicknames.Resynced | src/services/syncNicknames.ts:29-87 | the table after a whole pass: `ResyncedOn` over the rows created strictly after now - 7 days |
| JsText.StartsWith | src/events/interactionCreate.ts:10 | `startsWith`: the prefix is no longer than the text and equals its beginning |
| JsText.Trim | src/commands/edit.ts:89 | `trim`, also used at messageCreate.ts:14: white space removed from both ends; TrimIsCore, TrimIdempotent and TrimEmptyIff state its meaning |
| JsText.ParseInt | src/commands/edit.ts:88 | `parseInt(s)`: leading white space skipped, then a signed number; `None` for NaN |
| JsText.ParseSigned | src/commands/edit.ts:88 | an optional `+` or `-` and then the magnitude, negated after `-` |
| JsText.ParseMagnitude | src/commands/edit.ts:88 | a `0x`/`0X` prefix selects radix 16; the longest digit prefix is read; no digit gives NaN (`None`) |
| JsText.SkipSpace | src/commands/edit.ts:89 | the index of the first non-white-space character at or after i, with only white space skipped |
| JsText.SkipSpaceBack | src/commands/edit.ts:89 | the index just past the last non-white-space character, with only white space skipped |
| JsText.TrimStart | src/commands/edit.ts:88 | `parseInt` drops exactly the leading white space: a suffix whose first character is not white space |
| JsText.TrimIsCore | src/commands/edit.ts:89 | `trim` keeps a contiguous piece with only white space around it, and starts and ends on non-white-space |
| JsText.TrimIdempotent | src/commands/edit.ts:89 | trimming twice is trimming once |
| JsText.TrimEmptyIff | src/events/messageCreate.ts:14 | the trimmed content is empty exactly when the content is all white space |
| JsText.Prefix | src/events/messageCreate.ts:63 | `substring(0, n)`: the first min(n, length) characters, a prefix of the string |
| JsText.NatToString | src/commands/edit.ts:222 | the decimal digits of a natural number, with no leading zero |
| JsText.IntToString | src/commands/edit.ts:57 | the decimal text of an integer: digits with a leading `-` exactly for a negative number |
| JsText.DigitPrefix | src/commands/edit.ts:88 | `parseInt` reads the longest prefix of digits of the radix |
| JsText.NatToStringValue | src/commands/edit.ts:57 | the digits of a number's text have that number's value |
| JsText.DigitPrefixOfDigits | src/commands/edit.ts:88 | a string of digits is read whole |
| JsText.TrimStartOfUnspaced | src/commands/edit.ts:88 | a string beginning with non-white-space loses nothing to leading-white-space removal |
| JsText.MagnitudeOfNatToString | src/commands/edit.ts:88 | the unsigned part of `parseInt` reads a number's text back as the number |
| JsText.ParseIntOfNatToString | src/commands/edit.ts:88 | `parseInt` of a natural number's text is that number |
| JsText.ParseIntOfIntToString | src/commands/edit.ts:88 | `parseInt` of any integer's text is that integer |
| JsText.Split | src/commands/edit.ts:88 | `split` always gives at least one piece |
| JsText.SplitInverse | src/commands/edit.ts:88 | no piece contains the separator, and joining the pieces with it gives back the string |
| JsText.SplitWithoutSeparator | src/commands/edit.ts:88 | a string without the separator splits into itself alone |
| JsText.SplitAfterWord | src/commands/edit.ts:88 | a separator-free word followed by the separator splits off as the first piece |

## Left out

- A reply that is the last thing a handler does is assumed to succeed, because its failure is caught and changes neither the store nor what the handler has already done. These are the rejection replies of `/edit` and of the form, the not-found reply of a vote, and `showModal`. The embed edit after a recount (src/events/interactionCreate.ts:70-73) is also last; its failure leaves the vote and the recount as modelled.
- Discord I/O is left out: replies, `showModal`, `deferReply`/`editReply`, fetches, `send`, `edit`, `startThread` and `thread.delete`. Where a call's success steers the control flow it is a parameter: `deferred` (the `deferReply` at src/commands/edit.ts:120), `replied` (the vote reply at src/events/interactionCreate.ts:36-56), `confirmed` (the calls after the writes at src/commands/edit.ts:147-183, ending with `editReply` at 181), `sent`, `embedUpdated`, `thread`, `member`, `refreshable`, `members`, `channelFound` and `guildPresent`.
- No embed or button is built: src/utils/embed.ts, src/commands/edit.ts:151-176 and src/services/syncNicknames.ts:62-82 are left out, apart from the success or failure of the edit.
- The `thread.send` greeting (src/events/messageCreate.ts:76) and the `message.delete` calls are not modelled. They run after the last store write, and their failures are caught.
- Reply texts, emoji and console logs are not modelled. The one string that is modelled is the audit transcript.
- `Date.now()` is the parameter `now`. `toLocaleString('pt-BR')` is the parameter `formatDate`, because locale formatting is outside the model.
- The timers in src/services/syncNicknames.ts:109-121 are not modelled; each pass is one call of `SyncNicknames`.
- src/index.ts is left out: login, intents and signals. Each handler is an independent operation on the store. src/index.ts:35-38 registers only `handleMessage` and `handleInteraction`. `handleInteraction` returns at src/events/interactionCreate.ts:7 for anything that is not a button, so in the program as shipped `execute`, `handleModalSubmit` and `handleMessageDelete` are never called.
- src/deploy-commands.ts (slash-command registration over REST) and src/config.ts (environment loading) are not part of this model.
- Async interleaving is not modelled: handlers run one at a time, each to completion.
- The queries `getSuggestionByThreadId`, `saveEditHistory`, `updateSuggestionContent`, `getEditHistory` and `deleteSuggestion` are inferred. src/database.ts does not define them. So are the `edit_history` table and the `audit_message_id` column. Their meaning is taken from their call sites:
  - lookup by thread;
  - append-only history;
  - content update;
  - history in insertion order;
  - delete with cascade.

  Where several rows share a `thread_id`, the lookup returns the one with the smallest id.
- No query in the core writes `audit_message_id`, so every row is created without one and `UpdateAuditMessage` returns `None` on rows made by `HandleMessage`. The transcript is modelled for any row that does carry one.
- The surrogate `id` column of `votes` is left out. The map key `(suggestion_id, user_id)` is the UNIQUE key.
- The order of rows with equal `created_at` in `getRecentSuggestions` is not fixed: SQLite leaves it unspecified. GetRecentSuggestions only promises newest first.
- Characters are Unicode scalar values. JavaScript's `length` and `substring` count UTF-16 code units, so text outside the Basic Multilingual Plane is measured differently.
- ParseInt returns an unbounded integer. JavaScript's `parseInt` gives back a double: it loses precision beyond 2^53 and can return `-0`.
- NatToString and IntToString write the plain decimal text of any integer. JavaScript's `${n}` does that only below 10^21; from there on it uses exponent notation. ParseModalCustomId's round trip therefore matches the program only for ids below 10^21. AUTOINCREMENT ids stay far below that.
- `ParseSuggestionId` models `parseInt` with an undefined argument as NaN (`None`). JavaScript gives NaN there too, after turning `undefined` into the text "undefined".
- HandleModalSubmit: an error thrown by any Discord call after the writes is one outcome, `FailedAfterSave`, covering the thread check, the fetches, the message edit and the final `editReply`. The model does not say which call failed, or whether the audit message was edited before the final reply failed.
- SyncNicknames: an error in the rest of the iteration (`users.fetch`, `message.edit`) counts as the message not being `refreshable`. That matches the source, which skips the write in that case too.
