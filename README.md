# Chat store and avatar helpers, modelled in Dafny

This project models two parts of a small chat client.

- **The chat state store** (`src/stores/chat.ts`). It holds a list of contacts, a map from contact name to that contact's conversation, an optional selected name and a set of "new" contact names (contacts that arrived by a live message and have not been opened yet). In the model it is the class `ChatStore.Store`, with the seed data of `initializeMockData` as its constructor. Three methods change it in place:
  - `HandleIncomingMessage` receives a message;
  - `SelectContact` opens a conversation;
  - `SendMessage` sends a message.
  
  The computed views are pure functions in `ChatViews`: contacts by recency, new contacts, the unread total, the number of new contacts and the open thread. They are proved against reference properties: stable descending sort, filter, sum.
- **The avatar helpers** (`src/utils/avatars.ts`). The color comes from a 32-bit-style string hash taken modulo a 12-entry palette. The initials are the first character of each space-separated word, upper-cased and cut to two.

Files:

- `chat_types.dfy`: records.
- `js_strings.dfy`: the JavaScript string built-ins the code uses (`trim`, `split`, `charAt`, `slice`).
- `chat_views.dfy`: views and `find`.
- `chat_store.dfy`: the store.
- `avatars.dfy`: the avatar helpers.

Timestamps are integer milliseconds. Every `new Date()` / `Date.now()` becomes a `now: int` parameter. `null` selection is `None`. A selection is *truthy* when it is a non-empty name (`ChatViews.Truthy`), as in JavaScript.

The store's invariant (`ChatStore.StoreInvariant`) is established by the constructor and kept by every operation (`HandleIncomingMessage`, `OnMessage`, `SelectContact`, `SelectContactAnyName`, `SendMessage`). `Store.AppendMessage` is a step inside two of them and does not promise it by itself. The invariant says:

- contact names are unique;
- every new name is a contact;
- every contact has a conversation;
- unread counts are never negative;
- the contact whose non-empty name is selected has nothing unread.

## Behaviour of the code worth knowing (the model follows the code)

- **Selecting a contact named `""` does not clear its unread count.** The code tests `if (contactName)`, and `""` is falsy. So selecting a contact named `""` records the selection but neither zeroes its count nor removes it from the new contacts. `ChatStore.EmptyNameSelectionScenario` shows this. The invariant "the selected contact has nothing unread" therefore holds only for non-empty selected names, and that is how `StoreInvariant` states it. A name `""` can reach the store only through a socket message with an empty sender. The comments in `selectContact` describe an unconditional reset; that variant is `ChatStore.Store.SelectContactAnyName` (see "## Findings").
- **Also kept: the unconditional form of the invariant.** `ChatStore.SelectedHasNoUnread` says the selected contact has nothing unread whatever its name. `HandleIncomingMessage` and `SendMessage` keep it, and `SelectContactAnyName` establishes it; only `SelectContact` with `""` breaks it.
- **Not every conversation has a contact.** `sendMessage` to a selected name that is no contact creates a conversation but no contact. Only the converse holds: every contact has a conversation. `ChatStore.SelectAndSendToStranger` proves this for any store and name, and `ChatStore.OrphanConversationScenario` shows it on the seed with "Bob".
- **The text of Алёна's seed summary is not her last message.** In the seed data, her `lastMessage` is the text of her thread's second message, although its time is that of the last message. `ChatStore.SeedSummaries` states this.
- **Undecoded fields are not checked.** The code does not check the decoded fields. A payload `{"message":{}}` parses and passes `undefined` sender and text on to `handleIncomingMessage`. Only payloads on which `JSON.parse` or the field access throws leave the store unchanged. The model starts after decoding (`OnMessage` takes an `Option<IncomingEvent>`).

## Model

| member | source | states |
|---|---|---|
| `ChatStore.Store.constructor` | src/stores/chat.ts:15-98 | the store starts with the three seed contacts and their seed conversations, nothing selected, no new contacts, and satisfies the invariant |
| `ChatStore.SeedContacts` | src/stores/chat.ts:16-35 | the seed has three contacts, Алёна, Марина and Иван, with distinct names, already most recent first, no negative unread count and every last-message time before `now` |
| `ChatStore.SeedMessages` | src/stores/chat.ts:37-94 | there is one seed conversation per seed contact; each holds three messages, from the contact, from "You" and from the contact again, with strictly increasing times all before `now` |
| `ChatStore.SeedHasNoBob` | src/stores/chat.ts:16-94 | the seed has no contact and no conversation named "Bob" |
| `ChatStore.SeedSorted` | src/stores/chat.ts:16-35 | the seed contacts are already most recent first, so the recency view shows them in declared order |
| `ChatStore.SeedUnread` | src/stores/chat.ts:16-35 | three seed messages are unread (2 + 0 + 1) |
| `ChatStore.SeedSummaries` | src/stores/chat.ts:15-98 | each seed contact's last-message time is that of its conversation's last message; the text agrees for Марина and Иван, for Алёна it does not |
| `ChatStore.Store.AppendMessage` | src/stores/chat.ts:171-174 | the conversation with the name gets exactly the message at its end (created empty first when missing), no other conversation and nothing else of the store changes, and the open thread grows by the message exactly when it is that conversation |
| `ChatStore.Store.HandleIncomingMessage` | src/stores/chat.ts:163-194 | appends exactly `{from, message, now}` to `from`'s conversation (creating it), no other conversation changes; an existing contact gets the new text and time and one more unread unless selected, all other contacts unchanged; an unseen sender becomes exactly one new contact at the end (unread 0 if selected, else 1) and joins the new set; the selection is unchanged; the unread total rises by 1 exactly when `from` is not selected; the open thread grows by that message exactly when `from` is the truthy selection and is unchanged otherwise; the invariant and the unconditional no-unread property are kept |
| `ChatStore.Store.OnMessage` | src/stores/chat.ts:138-145 | an event that did not decode changes nothing; a decoded one changes the store exactly as `HandleIncomingMessage` does: `from`'s conversation gets the message, an existing contact is updated in place (unread +1 unless selected), an unseen sender is appended with unread 0 or 1 and joins the new set, the selection is unchanged |
| `ChatStore.Store.SelectContact` | src/stores/chat.ts:196-207 | the selection becomes the argument; for a non-empty name of an existing contact that contact's unread count becomes 0 (nothing else of it or of the others changes) and the name leaves the new set; for `null`, `""` or an unknown name only the selection changes; conversations never change; the open thread is then the selected name's conversation for a non-empty name and empty otherwise; the invariant is kept |
| `ChatStore.Store.SelectContactAnyName` | src/stores/chat.ts:196-207 | `selectContact` with the reset its comments at lines 198 and 203 describe, for every non-null name including `""`: the found contact's count becomes 0 and it leaves the new set, only the selection changes otherwise, and afterwards the selected contact has nothing unread whatever its name |
| `ChatStore.Store.SendMessage` | src/stores/chat.ts:209-230 | with no truthy selection or a text that is all white space nothing changes; otherwise `{You, trim(text), now}` is appended to the selected conversation (creating it) and the selected contact, if it exists, gets that text and time, no other contact changes; the open thread grows by exactly that message when the send goes through and is unchanged otherwise; no unread count ever changes; selection and new set unchanged; the invariant and the unconditional no-unread property are kept |
| `ChatStore.UpdateKeepsNoUnread` | src/stores/chat.ts:177-183 | updating a contact in place, keeping its name and a zero count when it is selected, keeps the selected contact free of unread messages |
| `ChatStore.AppendKeepsNoUnread` | src/stores/chat.ts:184-193 | appending a sender with count 0 when it is selected keeps the selected contact free of unread messages |
| `ChatStore.ZeroedIsOnlyOfName` | src/stores/chat.ts:199-205 | with unique names, zeroing the found contact leaves no contact of the selected name with anything unread |
| `ChatStore.UpdateKeepsInvariant` | src/stores/chat.ts:177-183 | replacing a contact by one of the same name with a count that is non-negative and 0 when selected, while conversations only grow and new names only shrink, keeps the invariant |
| `ChatStore.AppendKeepsInvariant` | src/stores/chat.ts:184-193 | appending an unseen sender that has a conversation, with a count that is non-negative and 0 when selected, and marking it new, keeps the invariant (names stay unique, new set stays inside the names) |
| `ChatStore.SelectKeepsInvariant` | src/stores/chat.ts:199-205 | selecting an existing contact by name, zeroing its count and dropping it from the new set keeps the invariant whatever was selected before |
| `ChatStore.SameNamesAfterUpdate` | src/stores/chat.ts:179-182 | changing fields of one contact other than its name keeps the set of names and their uniqueness |
| `ChatStore.NamesAfterAppend` | src/stores/chat.ts:186-191 | appending a contact with an unused name adds exactly that name and keeps names unique |
| `ChatStore.NewSenderScenario` | src/stores/chat.ts:163-207 | on the seed state a first message from "Ольга" adds exactly one contact with one unread message and makes her new; selecting her zeroes the count and she is no longer new |
| `ChatStore.EmptyNameSelectionScenario` | src/stores/chat.ts:196-207 | selecting a contact named "" keeps its unread count (1) and keeps it new, because "" is falsy |
| `ChatStore.EmptyNameSelectionCorrectedScenario` | src/stores/chat.ts:196-207 | with the reset for every non-null name, the same steps leave the contact named "" with count 0 and not new |
| `ChatStore.SelectAndSendToStranger` | src/stores/chat.ts:196-230 | selecting a non-empty name that is no contact and sending a non-blank text leaves that name selected; exactly that name's conversation changes, to its old content plus `{You, trim(text), now}`; contacts and the new set are unchanged, so there is still no contact of that name; the open thread is that conversation |
| `ChatStore.OrphanConversationScenario` | src/stores/chat.ts:196-230 | on the seed, selecting "Bob" and sending "hi" leaves "Bob" selected, the conversation stored under "Bob" and the open thread both exactly `[{You, trim("hi"), now + 1}]`, and no contact "Bob" |
| `ChatStore.TrimOfHi` | src/stores/chat.ts:214 | `"hi".trim()` is `"hi"`, so the scenario's message text is `"hi"` |
| `ChatViews.FindContact` | src/stores/chat.ts:177 | `find` by name gives the index of the first contact with that name, or nothing exactly when the name is no contact's |
| `ChatViews.SortedContacts` | src/stores/chat.ts:101-105 | the recency view is a permutation of the contacts (same multiset and length) ordered by non-increasing `lastMessageTime` |
| `ChatViews.InsertByRecency` | src/stores/chat.ts:102-104 | inserting one contact into the view adds exactly that contact to the multiset |
| `ChatViews.InsertKeepsOrder` | src/stores/chat.ts:102-104 | inserting keeps a list most recent first |
| `ChatViews.InsertBelow` | src/stores/chat.ts:102-104 | when the inserted contact and every listed contact are no more recent than a bound, so is every contact after insertion |
| `ChatViews.PassOver` | src/stores/chat.ts:101-105 | one step of the stable insertion: if, at time `t`, a list's equal-time contacts are `c` (when `c` is at `t`) followed by those of another list, this still holds after a contact at a time other than `c`'s is put in front of both lists; so inserting `c` never moves it past a contact with the same time |
| `ChatViews.SortedContactsStable` | src/stores/chat.ts:101-105 | the sort is stable: for every time value, the contacts with that time appear in the view in their original order |
| `ChatViews.SameStableOrder` | src/stores/chat.ts:101-105 | two lists that are most recent first and agree on every equal-time subsequence are equal |
| `ChatViews.SortedContactsUnique` | src/stores/chat.ts:101-105 | any ordering that is most recent first and keeps ties in input order equals the view, so the view is determined by the stable sort whatever algorithm performs it |
| `ChatViews.SortedKeepsNames` | src/stores/chat.ts:101-105 | the view has the same contact names as the list, and unique names stay unique |
| `ChatViews.NewContactsList` | src/stores/chat.ts:107-109 | a contact is in the new-contacts view exactly when it is in the recency view and its name is in the new set; the view is no longer than its input |
| `ChatViews.NewContactsListByRecency` | src/stores/chat.ts:107-109 | filtering keeps the recency order |
| `ChatViews.NewContactsListWithTime` | src/stores/chat.ts:107-109 | the filter keeps order: for every time value, the filtered equal-time contacts are the equal-time contacts filtered, in the same order |
| `ChatViews.NewContactsListIsSortedFilter` | src/stores/chat.ts:101-109 | filtering the recency view equals the stable recency sort of the filtered contact list |
| `ChatViews.NewContactsListLength` | src/stores/chat.ts:107-109 | with unique names the view has one entry per new name that is a contact |
| `ChatViews.NewContactsCountMatchesList` | src/stores/chat.ts:120-122 | under the store's invariant the new-contact count equals the length of the new-contacts view |
| `ChatViews.TotalUnreadCount` | src/stores/chat.ts:116-118 | with non-negative counts the unread total is non-negative, and it is 0 for no contacts |
| `ChatViews.ReduceUnread` | src/stores/chat.ts:117 | with non-negative counts the fold never ends below its starting total |
| `ChatViews.NewContactsCount` | src/stores/chat.ts:120-122 | the new-contact count is 0 exactly when the new set is empty |
| `ChatViews.TotalUnreadIsSum` | src/stores/chat.ts:116-118 | the `reduce` from 0 equals the sum of all unread counts |
| `ChatViews.ReduceIsSum` | src/stores/chat.ts:117 | the fold from any running total adds the sum of the unread counts to it |
| `ChatViews.SumUnreadNonNegative` | src/stores/chat.ts:116-118 | with non-negative counts the total is non-negative |
| `ChatViews.SumUnreadUpdate` | src/stores/chat.ts:116-118 | replacing one contact changes the total by the difference of the two counts |
| `ChatViews.SumUnreadAppend` | src/stores/chat.ts:116-118 | appending a contact adds its count to the total |
| `ChatViews.TotalUnreadOfSorted` | src/stores/chat.ts:116-118 | the total is the same over the recency view as over the contact list |
| `ChatViews.Conversation` | src/stores/chat.ts:113 | `messages.get(name)` with the `[]` default is the stored conversation, or empty when there is none |
| `ChatViews.Truthy` | src/stores/chat.ts:112 | a selection is truthy exactly when it is present and not `""`; the same test guards lines 199 and 210 |
| `ChatViews.CurrentMessages` | src/stores/chat.ts:111-114 | the open thread is empty without a truthy selection and is the selected name's conversation otherwise |
| `ChatViews.CurrentMessagesAfterAppend` | src/stores/chat.ts:111-114 | after one message is pushed onto the conversation with a name, the open thread is the old one plus that message when the name is the truthy selection, and unchanged otherwise |
| `JsStrings.TrimStart` | src/stores/chat.ts:210 | the result is a suffix, what was dropped is white space, and it does not start with white space |
| `JsStrings.TrimEnd` | src/stores/chat.ts:210 | the result is a prefix, what was dropped is white space, and it does not end with white space |
| `JsStrings.Trim` | src/stores/chat.ts:210 | `trim()` is a contiguous piece of the text with only white space before and after it (`PaddedWithWhiteSpace`: some offset at which the result sits, all white space before and after); it is empty exactly when the text is all white space, and otherwise neither starts nor ends with white space |
| `JsStrings.TrimPieces` | src/stores/chat.ts:210 | cutting leading white space and then trailing white space leaves a piece with the properties of `trim()` |
| `JsStrings.TrimIdempotent` | src/stores/chat.ts:214 | trimming the trimmed text changes nothing |
| `JsStrings.Split` | src/utils/avatars.ts:30 | `split(' ')` yields one piece more than there are spaces, none containing a space |
| `JsStrings.Join` | src/utils/avatars.ts:30 | the inverse of `split(' ')`, used to pin that split down (the `.join('')` of line 32 is `Avatars.FirstChars`): `join(sep)` for a one-character separator starts with the first piece and, when no piece holds the separator, holds exactly one separator fewer than there are pieces |
| `JsStrings.OccurrencesConcat` | src/utils/avatars.ts:30 | separator counts add up over a concatenation, as `Join`'s count of the `split(' ')` separators needs |
| `JsStrings.JoinSplit` | src/utils/avatars.ts:30 | joining the pieces with the separator gives back the name |
| `JsStrings.FirstChar` | src/utils/avatars.ts:31 | `charAt(0)` is empty for the empty word and the one-character first letter otherwise |
| `JsStrings.Prefix` | src/utils/avatars.ts:34 | `slice(0, n)` is the prefix of length min(n, length) |
| `Avatars.ToInt32` | src/utils/avatars.ts:21 | ToInt32 lies in [-2^31, 2^31), is congruent to its argument modulo 2^32, and is the identity on that range |
| `Avatars.ShiftLeft5` | src/utils/avatars.ts:21 | `hash << 5` is a 32-bit signed value congruent to ToInt32(hash) * 32 modulo 2^32 |
| `Avatars.MultiplesCombine` | src/utils/avatars.ts:21 | a multiple of 2^32 plus any multiple of another is a multiple of 2^32 |
| `Avatars.HashStep` | src/utils/avatars.ts:21 | one loop step is, modulo 2^32, `31 * hash + code` |
| `Avatars.NameHash` | src/utils/avatars.ts:19-22 | the loop's hash of a name is, modulo 2^32, the polynomial hash `Poly31` (the sum of each code times 31 to the power of the number of characters after it) |
| `Avatars.PaletteDistinct` | src/utils/avatars.ts:2-15 | the palette holds twelve distinct, non-empty colors, so the `||` fallback never applies and different indices give different colors |
| `Avatars.ColorIndex` | src/utils/avatars.ts:23 | `Math.abs(hash) % 12` is a palette index |
| `Avatars.ColorAt` | src/utils/avatars.ts:24 | for every palette index the lookup yields that entry, so the `'#1976d2'` fallback is never taken |
| `Avatars.AvatarColor` | src/utils/avatars.ts:18-25 | the color of a name is always one of the 12 palette entries, the one at `abs(hash) % 12` |
| `Avatars.EmptyNameColor` | src/utils/avatars.ts:19-24 | the empty name hashes to 0 and gets the first palette entry `#1976d2` |
| `Avatars.GetAvatarColor` | src/utils/avatars.ts:18-25 | the loop computes `hash = code + ((hash << 5) - hash)` over the characters in order (invariant: the hash of the prefix read so far) and returns the palette color of that hash; "" gives `#1976d2` |
| `Avatars.FirstChars` | src/utils/avatars.ts:31-32 | the joined first characters are at most one per word, and hold the first character of every non-empty word; their exact content and order are stated by `Avatars.FirstCharsOfNonEmptyWords` |
| `Avatars.FirstCharsLength` | src/utils/avatars.ts:30-32 | before upper-casing, the joined initials have one character per non-empty word; empty words add nothing |
| `Avatars.NonEmptyWords` | src/utils/avatars.ts:30-31 | the words left after dropping the empty ones: as many as there are non-empty words, none empty |
| `Avatars.FirstCharsSkipsEmpty` | src/utils/avatars.ts:30-32 | an empty word (from a leading, trailing or doubled space) contributes nothing: the joined first characters of the words are those of the non-empty words |
| `Avatars.FirstCharsOfNonEmptyWords` | src/utils/avatars.ts:30-32 | the joined first characters are exactly one per non-empty word, in order: the k-th is the first character of the k-th non-empty word |
| `Avatars.FirstCharsOfWords` | src/utils/avatars.ts:30-32 | when no word is empty, the k-th initial is the first character of the k-th word |
| `Avatars.GetInitials` | src/utils/avatars.ts:28-35 | the initials have at most 2 characters and are the first min(2, n) characters of the upper-cased joined first letters |
| `Avatars.EmptyNameInitials` | src/utils/avatars.ts:28-35 | the empty name has empty initials when upper-casing keeps "" empty |
| `Avatars.InitialsLength` | src/utils/avatars.ts:28-35 | when upper-casing keeps the length, there are min(2, number of non-empty words) initials |
| `Avatars.GetAvatarProps` | src/utils/avatars.ts:38-45 | the props carry the name's palette color, its initials (at most 2), text color `white` and size `40px` |

## Findings

| source | as written | input that shows it | evidently intended | confidence | as-written member | corrected member |
|---|---|---|---|---|---|---|
| src/stores/chat.ts:199 | the reset is guarded by `if (contactName)`, which is false for `""` | a message from `""`, then `selectContact("")`: unread stays 1 and `""` stays new | reset the count and drop the name from the new set for every selected contact, as the comments at lines 198 and 203 say | low (an empty sender name is unusual), not executed | `ChatStore.EmptyNameSelectionScenario` | `ChatStore.Store.SelectContactAnyName` (shown on the same input by `ChatStore.EmptyNameSelectionCorrectedScenario`) |

The rest of the model keeps `SelectContact` as written, since the store's other behaviour does not depend on the empty name.

## Left out

- WebSocket transport and connection state are left out: `connectWebSocket`, the open/close/error handlers, `disconnect`, `isConnected`, logging (src/stores/chat.ts:129-161, 232-238). They are browser I/O. The model begins at the decoded message event.
- `JSON.parse` and the field access in `onmessage` are left out. They are library calls. `OnMessage` takes their outcome as `Option<IncomingEvent>`.
- `websocket-server.js` is not part of this model. It is a timer-driven network server.
- `src/boot/pinia.ts` is framework bootstrapping, and `setActiveTab` / `activeTab` are UI state with nothing to verify.
- Vue/Pinia reactivity (`ref`, `computed`) is left out. Computed views are plain functions of the state, evaluated on demand.
- Object identity is left out. The code changes the found contact object in place, and the sorted and filtered views share that object. The model treats contacts as values and replaces the entry in the list. Since the views are recomputed from the list, nothing observable differs.
- `Avatars.GetInitials`: `toUpperCase` is passed in as a function `upper`, because the Unicode case tables are outside the model. The contract therefore says only what holds for every such function. The empty-name and length results assume `upper("") == ""` or that `upper` keeps the length.
- `JsStrings.Trim`: it follows the ECMAScript WhiteSpace and LineTerminator sets, with the "Zs" category listed as of current Unicode.
- JavaScript strings are sequences of UTF-16 code units. The model uses Dafny characters (Unicode scalar values), so a character outside the Basic Multilingual Plane counts as one character instead of two surrogates. This affects the hash and `charAt(0)`.
- `Avatars.NameHash` is an unbounded integer; in the code it is an IEEE double. `ToInt32` and the shift are modelled exactly. The hash drifts from the double only beyond 2^53, which only very long names reach.
- The seed reads the clock separately for each timestamp (`Date.now()` at src/stores/chat.ts:21, 27, 33 and in each seed message). The model takes one reading `now` for all of them. So `ChatStore.SeedSummaries`' equality of a contact's time with its last message's time assumes the readings are the same; in the code the later readings can be a few milliseconds larger, and the two times then agree only to within that difference. `ChatStore.SeedSorted`'s order does not depend on it, since the seed times are hours apart.
- Unread counts are unbounded integers; double precision limits on `unreadCount++` are not modelled.
