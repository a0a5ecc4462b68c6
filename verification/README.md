# Conversation and contact-list reducers of a one-to-one messaging client

This project models, in Dafny, the pure list and string logic of a React messaging
client. The logic sits inside state updaters and event handlers. Each piece is
lifted out as a pure function over immutable sequences:

- **`Chat` screen** (`src/components/Chat.jsx`), module `Chat`.
  - History replaces the list.
  - A send appends an optimistic entry with a provisional id `tmp-…`.
  - The server's acknowledgement swaps in the server id in place.
  - A failed send changes nothing.
  - Live `message` frames are accepted only from the open peer and stamped `delivered`.
  - `read` frames set status `read` by id.
  - A read acknowledgement is posted while some entry from the peer is unread.
- **`ChatUI` screen** (`src/components/ChatUI.jsx`), module `ChatUi`.
  - Every decoded `message` frame is appended as received.
  - A send is appended only after the server answers.
  - Undecodable frames are swallowed.
  - An empty peer or an empty text is a no-op.
- **Shared message parts**, module `Messages`: the message record, the decoded frame
  type, and the by-id update both screens use for `read` frames.
- **Contact-line parsing**, module `ContactLines`.
  - `ChatUI` parses in `syncContacts`/`doSync`; the two copies are identical and are
    modelled once.
  - `Settings` parses in `sync`.
  - Both trim lines, drop blank ones and split on commas. They differ in the line
    split (`'\n'` against `/\n+/`) and in the phone of a line without a comma.
- **Contact search** (`src/components/ChatList.jsx`), module `ContactSearch`: a
  case-insensitive substring filter on the display key.
- **String primitives**, module `Text`: `trim`, `split`, regex-run `split`, ASCII
  `toLowerCase`, `includes`.

JavaScript runs all state updates one at a time on its event loop. Each screen's
updates are therefore an `Event` datatype folded over a list by `Run`. Asynchronous
arrival order becomes an arbitrary finite sequence of events.

Some behaviours of the code are easy to assume otherwise:

- the optimistic entry is created with status `sent`;
- a failed send changes nothing, so the optimistic entry stays with status `sent`;
- live messages are never matched against pending sends;
- a late history response is applied whenever it arrives;
- a history response may carry any status, so a status can go back from `read`.

Inputs the code reads from the outside are parameters:

- the random part of the provisional id (`nonce`);
- the clock reading `new Date().toISOString()` (`now`);
- server responses, as `Option`/`SendReply` values where `None`/`RequestFailed` stands
  for a request that threw;
- decoded frames.

## Model

| member | source | states |
|---|---|---|
| Text.TrimUnique | src/components/Settings.jsx:11-12 | `trim` is determined by its meaning: text between an all-whitespace prefix and suffix, with no whitespace at its own ends, is the trimmed result |
| Text.TrimSplits | src/components/ChatUI.jsx:68 | every string is its trimmed form between an all-whitespace prefix and an all-whitespace suffix |
| Text.TrimIdempotent | src/components/ChatUI.jsx:72 | trimming an already trimmed field changes nothing |
| Text.SplitSingle | src/components/Settings.jsx:12 | `split(',')` yields more than one field exactly when the line holds a comma |
| Text.SplitFieldsFree | src/components/ChatUI.jsx:71 | no field of `split(',')` contains a comma |
| Text.SplitRunsFieldsFree | src/components/Settings.jsx:11 | no field of `split(/\n+/)` contains a line break |
| Text.JoinSplit | src/components/ChatUI.jsx:71 | joining the fields of `split(',')` with the separator gives back the line |
| Text.SplitJoin | src/components/ChatUI.jsx:71 | splitting a join of separator-free fields gives back the fields |
| Text.SplitAppend | src/components/ChatUI.jsx:67 | splitting `a + '\n' + b` yields the fields of `a` followed by the fields of `b` |
| Text.CleanTrimmed | src/components/ChatUI.jsx:68-69 | every line that survives trim-then-drop-blank is non-empty and has no leading or trailing whitespace |
| Text.CleanAppend | src/components/ChatUI.jsx:68-69 | trim-then-drop-blank maps a concatenation of line lists to the concatenation of results, so line order is kept |
| Text.CleanSplitRuns | src/components/Settings.jsx:11 | after trimming and dropping blank lines, `split(/\n+/)` and `split('\n')` yield the same lines |
| Text.Lower | src/components/ChatList.jsx:15 | lowercasing keeps the length and maps each character through ASCII lowercase |
| Text.ContainsAt | src/components/ChatList.jsx:15 | `includes` holds whenever the needle occurs at some offset |
| Text.ContainsOffset | src/components/ChatList.jsx:15 | conversely, whenever `includes` holds the needle occurs at an offset, which the lemma returns |
| Text.ContainsPrefix | src/components/ChatList.jsx:15 | a haystack containing a needle contains every prefix of it |
| Messages.UpdateById | src/components/Chat.jsx:68 | the id-matching map updates exactly the entries carrying the id and keeps length and order |
| Messages.MarkRead | src/components/Chat.jsx:46-47 | a `read` frame sets status `read` on exactly the entries with its id; length, order and every other field are kept |
| Messages.MarkReadUnknown | src/components/Chat.jsx:47 | a `read` frame for an id no entry carries leaves the list unchanged |
| Messages.MarkReadIdempotent | src/components/ChatUI.jsx:126-127 | applying the same `read` frame twice equals applying it once |
| Messages.MarkReadCommutes | src/components/ChatUI.jsx:127 | `read` frames for two ids give the same list in either order |
| Messages.MarkAllReadStatus | src/components/Chat.jsx:47 | after `read` frames for a list of ids, an entry is `read` iff its id was listed or it already was; nothing but status changes |
| Chat.ProvisionalIdInjective | src/components/Chat.jsx:57 | distinct random parts give distinct provisional ids `tmp-…` |
| Chat.LoadHistory | src/components/Chat.jsx:27-34 | a successful history response becomes the list; a failed request leaves the list alone |
| Chat.HistoryDiscardsEarlierState | src/components/Chat.jsx:30 | after a history load the list does not depend on what it held before |
| Chat.BeginSend | src/components/Chat.jsx:54-65 | blank-after-trim input issues no request and changes nothing; otherwise one entry is appended with the provisional id, sender = session user, recipient = peer, untrimmed text and status `sent`; earlier entries are untouched, the input is cleared, the untrimmed text is posted |
| Chat.AckSend | src/components/Chat.jsx:66-68 | on success only the id of entries carrying the provisional id changes, to the server id; length, order and all other fields are kept |
| Chat.AckSendInPlace | src/components/Chat.jsx:68 | with one entry carrying the provisional id, the acknowledgement rewrites that entry's id and nothing else |
| Chat.SendThenAck | src/components/Chat.jsx:56-68 | a send with a fresh provisional id followed by its acknowledgement leaves exactly one new tail entry, with the server id; earlier entries are untouched |
| Chat.SendThenFail | src/components/Chat.jsx:66-71 | a failed send leaves the optimistic entry with its provisional id and status `sent` |
| Chat.OnFrame | src/components/Chat.jsx:40-49 | a `message` frame from the peer appends it with status `delivered`; one from anyone else is ignored; `read` frames mark by id; other frames change nothing |
| Chat.SelfEchoCommutesWithAck | src/components/Chat.jsx:42-43 | when the open peer is not the session user, the user's own echoed message is ignored, so it commutes with the acknowledgement and adds no duplicate |
| Chat.ReadBeforeAckIsLost | src/components/Chat.jsx:46-47 | a `read` frame for the server id that arrives before the acknowledgement is lost |
| Chat.UnreadMembers | src/components/Chat.jsx:76 | the unread selection holds exactly the entries from the peer whose status is not `read` |
| Chat.UnreadAppend | src/components/Chat.jsx:76 | the selection keeps list order and every occurrence: selecting from `a + b` gives the selection from `a` followed by that from `b` |
| Chat.UnreadOne | src/components/Chat.jsx:76 | a single entry is selected iff it is from the peer and not `read` |
| Chat.ReadAck | src/components/Chat.jsx:74-80 | an acknowledgement is posted iff some entry from the peer is not `read`, and it carries the ids of the unread selection in list order |
| Chat.ReadAckNamesUnread | src/components/Chat.jsx:76-78 | an id is in the acknowledgement iff some unread entry from the peer carries it |
| Chat.ReceiptsClearUnread | src/components/Chat.jsx:76-78 | once `read` frames arrive for every acknowledged id, nothing is unread and no acknowledgement is posted |
| Chat.RunReadFrames | src/components/Chat.jsx:46-47 | a run of `read` frames applies their receipts one after another |
| Chat.RunKeeps | src/components/Chat.jsx:36-72 | between history loads no entry is removed or moved, and no sender, recipient, text or timestamp changes |
| Chat.StatusMark | src/components/Chat.jsx:10 | the label is a double tick iff status is `read` or `delivered`, else a single tick |
| ChatUi.LoadHistory | src/components/ChatUI.jsx:135-140 | an empty peer changes nothing; otherwise a successful response becomes the list |
| ChatUi.HistoryDiscardsEarlierState | src/components/ChatUI.jsx:139 | after a history load for a selected peer the list does not depend on what it held before |
| ChatUi.SendTextRequest | src/components/ChatUI.jsx:142-148 | a request is issued iff peer and text are non-empty; whitespace-only text is sent untrimmed |
| ChatUi.CompleteSend | src/components/ChatUI.jsx:149-152 | a reply appends exactly one tail entry with the server id, sender = user, recipient = peer, the text, status `sent` and the clock reading; no request or a failed one changes nothing |
| ChatUi.BoxAfterSend | src/components/ChatUI.jsx:143-150 | the text box is cleared only once the server has answered; with no request or a failed one it keeps what it holds |
| ChatUi.BoxAfterSendRetries | src/components/ChatUI.jsx:143-150 | after a failed request the unchanged box issues the same request again; after a reply the cleared box issues none |
| ChatUi.OnFrame | src/components/ChatUI.jsx:120-130 | a decoded `message` frame is appended unchanged whatever its sender; `read` frames mark by id; other and undecodable frames change nothing |
| ChatUi.FrameHandlingComparedWithChat | src/components/ChatUI.jsx:123-127 | the two screens agree on `read` and ignored frames; on `message` frames `Chat` keeps only the peer's, stamped `delivered` |
| ChatUi.EchoAfterSendDuplicates | src/components/ChatUI.jsx:123-124 | a sent message followed by the server's echo of it shows the text twice |
| ChatUi.RunKeeps | src/components/ChatUI.jsx:120-153 | between history loads entries are only appended, and an existing entry changes only its status |
| ChatUi.StatusLabel | src/components/ChatUI.jsx:231 | the label is `✓✓ read`, `✓✓ delivered`, or `✓ sent` for any other status: the `Chat` tick mark plus the status word |
| ContactLines.ParseLineUi | src/components/ChatUI.jsx:70-73 | name and phone are trimmed; a line without a comma gets its trimmed self as name and phone `''` |
| ContactLines.ParseLineSettings | src/components/Settings.jsx:12-13 | the phone is absent iff the line has no comma; name and any phone are trimmed |
| ContactLines.NameAndPhone | src/components/Settings.jsx:12 | the name is the trimmed text before the first comma, the phone the trimmed text after it |
| ContactLines.ExtraFieldsIgnored | src/components/ChatUI.jsx:71 | text after the second comma does not affect either parser |
| ContactLines.LineParsersAgree | src/components/Settings.jsx:12-13 | per line, the `ChatUI` record is the `Settings` record with an absent phone read as `''` |
| ContactLines.MapAt | src/components/ChatUI.jsx:70-73 | the k-th record is the parse of the k-th surviving line |
| ContactLines.MapAppend | src/components/ChatUI.jsx:73 | mapping the parser over two line lists gives the concatenation of the two results |
| ContactLines.ParseContactsUi | src/components/ChatUI.jsx:66-73 | every record has a present, trimmed phone and a trimmed name; at most one record per line |
| ContactLines.ParseContactsSettings | src/components/Settings.jsx:11-14 | every record has a trimmed name and any phone trimmed; at most one record per line |
| ContactLines.OneLineUi | src/components/ChatUI.jsx:85-89 | a single line yields no record when blank after trimming, else exactly one |
| ContactLines.ContactsInLineOrderUi | src/components/ChatUI.jsx:85-92 | the records of `a + '\n' + b` are those of `a` followed by those of `b` |
| ContactLines.SettingsSplitsLikeUi | src/components/Settings.jsx:11 | the `Settings` pipeline equals parsing the lines of a one-newline split |
| ContactLines.OneLineSettings | src/components/Settings.jsx:11 | a single line yields no record when blank after trimming, else exactly one |
| ContactLines.ContactsInLineOrderSettings | src/components/Settings.jsx:11-14 | the records of `a + '\n' + b` are those of `a` followed by those of `b` |
| ContactLines.BlankLinesIgnored | src/components/Settings.jsx:11 | a whitespace-only line or an extra newline adds no record to either parser |
| ContactLines.ParsersAgree | src/components/ChatUI.jsx:66-72 | both screens give the same number of records from the same text, equal up to `''` for a missing phone |
| ContactSearch.FilteredMembers | src/components/ChatList.jsx:15 | a contact is shown iff it is in the list and its lowercased display key contains the lowercased query |
| ContactSearch.FilteredCons | src/components/ChatList.jsx:15 | the first contact is kept iff it matches, and the rest is filtered on its own |
| ContactSearch.FilteredAppend | src/components/ChatList.jsx:15 | filtering keeps order and every occurrence: filtering `a + b` gives the result for `a` followed by that for `b` |
| ContactSearch.FilteredOne | src/components/ChatList.jsx:15 | a single contact is kept iff it matches |
| ContactSearch.FilteredIsSubsequence | src/components/ChatList.jsx:15 | the filtered list is an order-preserving subsequence of the contacts |
| ContactSearch.EmptyQueryKeepsAll | src/components/ChatList.jsx:15 | an empty query keeps every contact |
| ContactSearch.SameLowercaseSameResult | src/components/ChatList.jsx:15 | queries equal after lowercasing select the same contacts |
| ContactSearch.QueryCaseIrrelevant | src/components/ChatList.jsx:15 | lowercasing the query first does not change the result |
| ContactSearch.MatchesPrefix | src/components/ChatList.jsx:15 | a contact matching a query matches every prefix of it |
| ContactSearch.ExtendingQueryNarrows | src/components/ChatList.jsx:15 | extending the query never keeps more: the new result is a subsequence of the old |
| ContactSearch.FilterIdempotent | src/components/ChatList.jsx:15 | filtering the filtered list again changes nothing |

## Left out

- Network and storage I/O are not modelled: `fetch`, `WebSocket` open/close, the
  identification frame, `localStorage`, `alert`. So are `src/components/Auth.jsx`, the
  `useApi` helper and session persistence in `src/App.jsx`, and the sign-in steps of
  `ChatUI` (lines 36-62). Only their results enter the model, as parameters.
- `JSON.parse`, `JSON.stringify`, `URL` and `encodeURIComponent` are not modelled.
  Inbound frames arrive already decoded, with a `Malformed` variant for payloads that
  do not parse.
- `Chat.OnFrame`: in `Chat.jsx` a payload that does not parse throws out of the
  handler (there is no try/catch there). The model records only that the list is left
  unchanged.
- `Math.random()` and `new Date().toISOString()` are parameters (`nonce`, `now`). The
  freshness of the provisional id is a precondition of the lemmas that need it.
- Rendering, styling and `setTimeout` scrolling are not modelled.
- Timing and cancellation are not modelled. Neither history loader checks for a stale
  response, so nothing is claimed about isolation across a peer switch.
- Switching the open contact in the `Chat` screen is not modelled. `src/App.jsx` lines
  63-64 render `Chat` without a `key`, so the same instance and its `messages` survive
  the switch. The previous peer's list stays until the new history arrives, and for
  good if that request throws. A send made in that window is appended to it. Each `Run`
  fixes `peer` and starts from a given list.
- `ChatUi.LoadHistory`: `ChatUI.jsx` lines 137-139 call `fetch` directly, and `fetch`
  does not throw on an error status. An error answer with a JSON body, such as an
  expired token, replaces the list with a value that is not a list. The next
  `messages.map` or `[...prev, m]` then throws. The model's reply is either a list or
  a request that threw, so it cannot express this case.
- The `doSync` branching on the response shape (`ChatUI.jsx` lines 99-108) is left
  out. It depends only on what the backend returns.
- `Text.Lower`: only ASCII letters are lowercased. Full Unicode case mapping is not
  modelled.
- `Text.TrimUnique`: whitespace is the ASCII set (space, tab, line feed, vertical tab,
  form feed, carriage return). JavaScript's `trim` also removes other Unicode space
  characters.
- `ChatUi.CompleteSend`: a non-success HTTP answer whose body still parses is
  modelled as a reply. The entry's id is then whatever `message_id` the body holds.
- Two fields are not modelled because only rendering or nothing reads them:
  - `photo_url` of a contact is read only to draw the avatar.
  - The `type` of a `message` frame is copied into the `ChatUI` list and never read
    from there.
  
  A contact's `user_id` is modelled, as `ContactSearch.Contact.userId`.
