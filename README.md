# Chat: a verified model of the server's admission logic and the browser client

The chat server (`src/main.rs`, a Rocket application) takes messages posted to
`/message`, records the room and the message, and re-broadcasts only the messages
that pass a spam test. That test has four parts:

- a character histogram;
- the smallest period of the text, computed by `check_repeats`;
- a list of reserved user names;
- a ban on a leading `/`.

The server also keeps a user list updated by `/user`. The browser client
(`static/script.js`) keeps one JavaScript object, `STATE`, holding the active room,
the connection flag and one log per room. It renders the active room's messages
under a global, ever-growing `id`, reacts to the event stream (message, open,
error, with a backoff of 1, 2, 4, … 64 seconds) and sends requests from the message form.
It also colours each user name with `hashColor`.

The model has six modules:

- `Text`: the string operations the code borrows from Rust and JavaScript. These are byte length, UTF-16 code units, `replace`, `matches().count()`, `starts_with`, `contains`, ASCII lower-casing, decimal printing and `split`/`join`.
- `Periodicity`:
  - `check_repeats` is a method with its loop. Its ordered map of candidate offsets is a key-ordered sequence of `Candidate(offset, cursor)`.
  - It is proved to return the smallest period.
  - A period is defined one character at a time. `PeriodChars` proves that the definition means "every character equals the one `p` places earlier".
- `Admission`: the form validators, the reserved names, the histogram loop on an array, and the broadcast test `Admit`. `Admit` keeps the `||` short-circuit order of src/main.rs:182-185, and the method `Screen` runs that test as `post` does.
- `ServerState`:
  - The managed state is a class `ChatServer` with four fields: the room list, the saved-message map, the user list, and the sequence of messages handed to the broadcast queue.
  - `post` and `add_user` are its methods.
  - Their effects are specified by the functions `ListRoom`, `SaveMessage` and `Rename`, with lemmas about each.
- `HashColour`: `hashColor` as a method with both loops, proved equal to `Colour`. `Colour` is the reference definition: it takes the hash modulo 2^32 (`HashResidue`) and reads its three low bytes by division and remainder. ECMAScript `ToInt32` appears only in the method, through `ShiftLeft5` and `ByteAt`, and `ByteAtResidue` proves that it does not change the bytes.
- `Client`:
  - The page's globals are a class `ChatClient`. `STATE` is a map from property names to JavaScript values, and the room list and the rendered rows are sequences.
  - Each function and handler of the core is a method. Its `ensures` gives the new state, and the invariant `Valid()` is preserved by every handler.

Some behaviour of the code that the model keeps:

- Inbound texts are classified by `startsWith`, so `/remove_range …` is taken as `/remove` (`ClassifyPrefixes`).
- An inbound message for a room the client does not know raises a `TypeError`; it does not create the room.
- A message submitted while disconnected is silently not posted, with no status notice. The user-registration request is still sent.
- `STATE` mixes room names with its own properties, and the model keeps that collision. For example, a room named "connected" replaces the connection flag with its log, and `NewRoom` states what then happens. A room named "room" or "rooms" is never created, because `STATE[name]` is truthy.

## Model

| member | source | states |
|---|---|---|
| Text.Utf8Len | src/main.rs:143 | Byte length of the UTF-8 encoding: between the character count and four times it, equal to the character count exactly for ASCII text |
| Text.Utf16Units | static/script.js:37-38 | The code units `charCodeAt` yields, each below 2^16 |
| Text.Contains | src/main.rs:153 | `str::contains`: `needle` occurs as a contiguous run, so it is no longer than `hay`, and every prefix (the empty needle included) is contained |
| Text.StartsWith | src/main.rs:185 | `starts_with` / `startsWith`: the prefix fits and agrees with the text character by character |
| Text.CountOf | src/main.rs:183 | `matches(' ').count()` is at most the length, and zero exactly when the character does not occur |
| Text.RemoveAll | src/main.rs:183 | `replace(' ', "")`: the length drops by the number of spaces and no space is left |
| Text.RemoveAllEmpty | src/main.rs:183 | Removing spaces leaves nothing exactly when the text is all spaces |
| Text.LowerAscii | src/main.rs:184 | Lower-casing changes exactly the letters A-Z, position by position |
| Text.Decimal | static/script.js:99 | The printed id is a non-empty run of digits, longer than one digit exactly from 10 on |
| Text.DecimalRoundTrip | static/script.js:123 | Reading the printed id back gives the id |
| Text.DecimalInjective | static/script.js:123 | Two ids print alike only when they are equal |
| Text.Split | static/script.js:119 | `split(' ')` gives one more field than the text has spaces, and no field holds a space |
| Text.SplitJoin | static/script.js:119 | Joining the fields of `split(' ')` with spaces gives back the text |
| Periodicity.PeriodChars | src/main.rs:91-98 | A period `p` of a prefix means every character of it equals the one `p` places earlier (both directions) |
| Periodicity.LeastPeriodFrom | src/main.rs:97 | The least period at or above `from` is a period and no smaller candidate from `from` on is |
| Periodicity.SmallestPeriod | src/main.rs:91-98 | The smallest period is a period between 1 and the length, and nothing smaller is one |
| Periodicity.Retain | src/main.rs:94 | `retain` never adds a candidate, and every survivor's iterator has consumed at least one character |
| Periodicity.RetainAppend | src/main.rs:94 | `retain` over the key-ordered map distributes over concatenation |
| Periodicity.RetainSingle | src/main.rs:94 | A single candidate survives, advanced by one, exactly when its iterator yields the character read |
| Periodicity.RetainEntry | src/main.rs:93-94 | Reading the next character keeps offset `k` exactly when `k` stays a period of the longer prefix |
| Periodicity.NewCandidate | src/main.rs:95 | The offset inserted after reading `n + 1` characters is a period of that prefix, its iterator at the start |
| Periodicity.RetainCons | src/main.rs:93-96 | One loop turn maps the candidates from offset `k` on to those of the longer prefix |
| Periodicity.RetainStep | src/main.rs:93-96 | One loop turn turns the periods of the first `n` characters into those of the first `n + 1` |
| Periodicity.FirstSurvivor | src/main.rs:97 | After the loop the first key left is the least period |
| Periodicity.CheckRepeats | src/main.rs:91-98 | Panics (`None`) exactly on the empty string; otherwise returns a period with no smaller period, i.e. the smallest period |
| Admission.ReservedNames | src/main.rs:18 | Every reserved name is its own lower-casing, so comparing the lower-cased user name makes the test case-insensitive |
| Admission.ClientNamesReserved | static/script.js:201-227 | The names the client writes its own rows under, "System" and "[STATUS]", lower-case to reserved names, so no message under these names is broadcast |
| Admission.ValidForm | src/main.rs:23-32 | A valid form has a room of 1 to 31 characters and at most 31, 65535 and 23 characters in the other fields, since each character takes at least one byte |
| Admission.ValidFormBounds | src/main.rs:23-32 | The validators bound the character counts; for ASCII fields they are exactly the byte bounds |
| Admission.Bucket | src/main.rs:140 | `i as u8 as usize` is an index below 256, and the code point itself for a character below 256 |
| Admission.BucketCount | src/main.rs:139-141 | A histogram bucket never counts more than the text has characters |
| Admission.Homogeneous | src/main.rs:143-149 | Only a text of at least 13 characters (over 50 bytes) can be homogeneous |
| Admission.Homogeneity | src/main.rs:134-149 | The histogram loop over a 256-entry array decides `Homogeneous`: over 50 bytes and one bucket above a quarter of the byte length |
| Admission.Utf8LenMinusSpaces | src/main.rs:183 | Bytes minus spaces is at least the stripped character count, equal exactly for ASCII text |
| Admission.Admit | src/main.rs:182-185 | A broadcast message is not homogeneous, comes from a name that is not reserved and does not start with `/`; `check_repeats` panics only on a message of spaces |
| Admission.Screen | src/main.rs:134-188 | The histogram loop followed by the condition, with `check_repeats` run only on a non-homogeneous message, yields exactly `Admit` |
| Admission.BroadcastIff | src/main.rs:182-188 | A message is broadcast exactly when it is not homogeneous, is ASCII, has a non-space character, has no shorter period once spaces are removed, its user name is not reserved, and it does not start with `/` |
| Admission.NonAsciiWithheld | src/main.rs:183 | A message with a non-ASCII character is never broadcast |
| Admission.PanicIff | src/main.rs:182-185 | `check_repeats` panics exactly for messages of at most 50 bytes that are all spaces |
| Admission.AllOneBucket | src/main.rs:139-141 | A text of one repeated character puts everything in that character's bucket |
| Admission.SameEndsWithheld | src/main.rs:183 | When the first and last non-space characters agree (e.g. "wow") the message is withheld |
| ServerState.IndexOf | src/main.rs:205 | `position` finds the first occurrence, and `None` exactly when absent |
| ServerState.ChatServer.constructor | src/main.rs:260-272 | The managed state starts as `["lobby"]`, no saved logs, no users, nothing broadcast |
| ServerState.ChatServer.Post | src/main.rs:122-189 | An invalid form changes nothing. A valid one updates the room list, then saves the message or panics at the `unwrap`. A saved message is broadcast exactly when `Admit` says so, and the user list never changes |
| ServerState.ChatServer.AddUser | src/main.rs:191-218 | The user list becomes `Rename(old, from, to)`; nothing else changes |
| ServerState.SomeEntryIn | src/main.rs:153 | The `any` scan with `room.contains(e)` over the room list: a room already listed is always found, and an empty list finds nothing |
| ServerState.SomeKeyIn | src/main.rs:162 | The same scan over the saved map's keys: a room that is a key is always found, and an empty map finds nothing |
| ServerState.Welcome | src/main.rs:166-171 | A new room's log opens with a message for that room whose text is "Welcome to " followed by the room name |
| ServerState.ListRoom | src/main.rs:151-158 | The room list only grows, by at most one entry, and afterwards some entry occurs inside the posted room |
| ServerState.ListRoomSpec | src/main.rs:151-158 | A room is appended exactly when no listed name occurs inside it, and the list keeps "no earlier entry inside a later one" |
| ServerState.NoEarlierInLaterDistinct | src/main.rs:151-158 | That property rules out duplicate rooms |
| ServerState.RoomsAfterInvariant | src/main.rs:151-158 | After any sequence of posts the list starts with "lobby", has no duplicates, and no later room contains "lobby" |
| ServerState.SaveMessage | src/main.rs:160-180 | A successful save keeps every key, adds the room, and leaves the message last in the room's log; the panic needs a room that is not a key |
| ServerState.SaveMessageSpec | src/main.rs:160-180 | Saving fails exactly when some key occurs inside the room while the room is not a key. On success only the room's log changes, gaining the message, after a welcome line when the log is new |
| ServerState.SaveKeepsLogsWellFormed | src/main.rs:160-180 | Every log keeps opening with its room's welcome and holding only messages for that room |
| ServerState.Rename | src/main.rs:198-217 | `add_user` keeps the list's length or adds one, and a changed list ends with the new name |
| ServerState.RenameSpec | src/main.rs:198-217 | The four cases of `add_user`. A present old name is removed at its first position and the new name appended, as a multiset replace. A name that only contains a listed one leaves the list unchanged |
| ServerState.RemoveAtMultiset | src/main.rs:206 | `Vec::remove` takes exactly one copy of the removed name out of the multiset |
| HashColour.ToInt32 | static/script.js:38 | ECMAScript ToInt32 lands in the 32-bit signed range and keeps the value modulo 2^32 |
| HashColour.HashResidue | static/script.js:36-39 | The hash modulo 2^32 is below 2^32 |
| HashColour.ShiftLeft5 | static/script.js:38 | `hash << 5` is a 32-bit signed value equal to 32 times the hash modulo 2^32 |
| HashColour.ByteAt | static/script.js:42 | `(hash >> 8i) & 0xff` is a byte |
| HashColour.Hex | static/script.js:43 | `toString(16)` gives at least one digit |
| HashColour.PadStart2 | static/script.js:43 | `padStart(2, '0')` gives at least two characters: the text itself preceded by zeros only |
| HashColour.HexByte | static/script.js:43 | A byte padded with `padStart(2, '0')` is its high and low hex digits |
| HashColour.ColourPrefix | static/script.js:40-44 | `'#'` followed by two lower-case hex digits per byte |
| HashColour.Colour | static/script.js:35-46 | A colour is `#` and six lower-case hex digits |
| HashColour.ColourBytes | static/script.js:40-45 | The colour's digit pairs read back as bytes 0, 1 and 2 of the hash modulo 2^32 |
| HashColour.HexPair | static/script.js:43 | The two digits written for a byte read back as that byte |
| HashColour.HashStep | static/script.js:38 | One turn of the hash loop agrees modulo 2^32 with `h' = unit + 31 h` |
| HashColour.ByteAtResidue | static/script.js:42 | `(hash >> 8i) & 0xff` depends only on the hash modulo 2^32 |
| HashColour.HashColor | static/script.js:35-46 | Both loops of `hashColor` compute `Colour(str)` |
| Client.Truthy | static/script.js:51 | Every object and array, an empty room log included, is truthy; `undefined` is not |
| Client.Lookup | static/script.js:51 | `STATE[name]` reads an own property when there is one; otherwise it is truthy exactly for a member inherited from `Object.prototype` |
| Client.Rendered | static/script.js:84 | Re-rendering a log gives one row per entry, in order, numbered consecutively from the current id |
| Client.Classify | static/script.js:118-165 | Every text taken as a directive starts with `/` |
| Client.ClassifyPrefixes | static/script.js:118-141 | `/remove_range …` is taken for `/remove` |
| Client.BroadcastsAreStored | static/script.js:118-164 | Every message the server broadcasts is stored by the client, never taken as a directive |
| Client.SecondField | static/script.js:119-123 | `args[1]` is `undefined` exactly when the text has no space, and otherwise a field without spaces |
| Client.Matches | static/script.js:123 | A row matches only a numeral argument that reads back as the row's id |
| Client.MatchesSameId | static/script.js:123 | Two rows matching the same argument have the same id |
| Client.LiveRemove | static/script.js:122-126 | The walk over the live collection only removes rows |
| Client.Unmatched | static/script.js:122-126 | The rows that do not match the argument, and only those |
| Client.UnmatchedIncreasing | static/script.js:122-126 | Removing rows keeps ids increasing down the page |
| Client.UnmatchedBelow | static/script.js:122-126 | Removing rows keeps every id below the counter |
| Client.ConsIncreasing | static/script.js:122-126 | A row with an id below all the rest keeps the rows increasing when put in front |
| Client.LiveRemoveDistinct | static/script.js:122-126 | With distinct ids, the skip-after-removal walk removes exactly the matching rows |
| Client.NoMatchUnmatched | static/script.js:122-126 | With no matching row the filter keeps everything |
| Client.NoMatchLiveRemove | static/script.js:122-126 | With no matching row the live walk keeps everything |
| Client.WalkStep | static/script.js:122-126 | One turn of the `/remove` loop, removing or stepping, keeps what the walk will leave |
| Client.WalkRemoves | static/script.js:123-124 | Removing a matching row shifts the next one into its index, which the walk then steps over |
| Client.WalkSkips | static/script.js:122-123 | A row that does not match stays and the walk moves to the next index |
| Client.RemoveRendered | static/script.js:118-126 | The loop over the live `getElementsByClassName` collection leaves `LiveRemove(view, args[1])`, which is exactly the non-matching rows when ids are distinct |
| Client.NextDelay | static/script.js:180 | From a delay of the schedule (a power of two up to 64) the next delay is again one, and never shorter |
| Client.NameOrGuest | static/script.js:210-211 | The typed name, or "guest" when the field is empty, is never empty and is the typed name whenever one was typed |
| Client.BackoffSchedule | static/script.js:179-180 | Consecutive errors wait 1, 2, 4, 8, 16, 32 seconds and then 64 every time |
| Client.UpdateTwice | static/script.js:63-64 | Writing a room's log, then `STATE.room`, then the log again is the last log write plus the room switch |
| Client.ChatClient.constructor | static/script.js:13-21 | The page's globals: `STATE = {room: "lobby", rooms: {}, connected: false}`, id 0, no rows, `retryTime` 1 |
| Client.ChatClient.Init | static/script.js:197-201 | `init()` lists "lobby", creates its log with the welcome entry, renders it as row 0, and sets up `Valid()` |
| Client.ChatClient.AddMessage | static/script.js:89-104 | A push appends to the room's log or throws when `STATE[room]` is not an array. The row is rendered with the next id exactly when the room is active. `Valid()` is kept |
| Client.ChatClient.ChangeRoom | static/script.js:69-85 | Either nothing changes (same room, or a room without a list entry) or the active room switches. The view is then re-rendered from the log with fresh ids, or a `TypeError` leaves it empty |
| Client.ChatClient.AddRoom | static/script.js:50-66 | A log is created exactly when `STATE[name]` is falsy, and then the name is listed and the room made active. Otherwise it only switches rooms |
| Client.ChatClient.SetConnectedStatus | static/script.js:191-194 | `STATE.connected` becomes the status and nothing else changes |
| Client.ChatClient.OnMessage | static/script.js:113-166 | `/remove` deletes the rows whose id is the second field; `/debug` flips debug; `/clear` empties the view; any other text is stored as `addMessage(…, true)`. `Valid()` is kept |
| Client.ChatClient.OnOpen | static/script.js:168-173 | Connected, backoff reset to 1, and one status row in the active room |
| Client.ChatClient.OnError | static/script.js:175-184 | Disconnected. The timeout is the current delay, the next delay doubles up to 64, and one status row names the timeout |
| Client.ChatClient.Connected | static/script.js:231 | `if (STATE.connected)` follows the connection flag while it is a boolean, and is true once a room log named "connected" has replaced it |
| Client.ChatClient.Submit | static/script.js:205-243 | An empty message sends nothing. Otherwise it registers the name (or "guest") and posts the message to the active room only when connected |
| Client.ChatClient.OnRegisterResponse | static/script.js:217-229 | On success the old user name becomes the submitted one, with two status rows only in debug mode. On failure one status row |
| Client.ChatClient.OnPostResponse | static/script.js:235-241 | The message field is cleared exactly on success; a failure adds one status row |
| Client.ChatClient.NewRoom | static/script.js:246-256 | An empty name does nothing. A new room is listed, activated and given its welcome entry and row. An existing room is only switched to |

## Left out

- Rendering: templates, DOM nodes, CSS classes and the user-name colour. A row's colour is always `HashColour.Colour(username)`, so rows do not store it.
- I/O: the event stream, `fetch`, `setTimeout`, `console.log` and `JSON.parse` are not modelled. Their results are parameters of the handlers: the decoded `Event`, the response's `ok` flag, and the timeout returned by `OnError`.
- The field guard at static/script.js:117 is not modelled. `!"message" in msg` tests for a property named "false", which a server event never has, so the guard never returns.
- The second `/clear` branch (static/script.js:141-162) is unreachable behind the first one and is not modelled.
- `hash_sha256` (static/script.js:23-32) is unused by the core.
- Client.ChatClient.ChangeRoom: the room-list lookup is a `querySelector` on `data-name='${name}'`. The model takes it as membership in the list, ignoring names that break the CSS selector (a quote, a backslash).
- Client.ChatClient.AddRoom: requires a non-empty name. Both callers guarantee this: `init` passes "lobby" and the form handler returns on an empty name.
- HashColour.HashColor: JavaScript numbers are taken as exact integers. `hash` is an IEEE double whose magnitude grows by at most 2^31 + 2^16 per code unit, so it stays exact, and the model agrees, for strings shorter than about four million (2^22) code units.
- Text.LowerAscii: Rust's Unicode `to_lowercase` is modelled on ASCII letters only. The reserved names are ASCII, and a non-ASCII character never lower-cases to a run of letters from them, so membership in the reserved list is the same.
- ServerState.ChatServer.Post: the `RwLock` retry loops are not modelled; each handler runs as one sequential update, and concurrent interleavings are not captured.
- ServerState.ChatServer.Post: lock poisoning is not captured. The panic at src/main.rs:176 poisons the message map's lock, after which `try_write` at line 161 fails forever: every later `post` spins there after it has already updated the room list (151-158), and `get_messages` spins at line 245. The model instead goes on saving and broadcasting later posts.
- ServerState.ChatServer.Post: takes a decoded `Form` with all four fields. The client's message form sends only `room`, `username` and `message` (static/script.js:232-235), while `color` is a required `String` (src/main.rs:30-31). How Rocket decodes a request without `color` is not part of this model; if it rejects the request for the missing field, no message typed in the client reaches `post`.
- The broadcast channel's capacity of 1024 and lagging receivers (`events`) are not modelled.
- `rw_lock_to_json`, `get_users`, `get_rooms`, `get_messages`, and route mounting and static files are outside the core.
- The `className` of the status element and the clearing of the two form fields are not modelled. Clearing the message field is reported as `OnPostResponse`'s result.
