# twitch-speaks: the windowed popularity counter

The bot reads a Twitch channel's chat and speaks a line aloud once enough
distinct viewers have typed it. Its core is a `BTreeMap<String, MessageData>`
in `src/main.rs`. It maps the lower-cased text of a chat message to the list of
distinct sender ids that have sent it and to the `Instant` the entry was
created. Each server message from the chat connection runs one step:

1. **Update.** A chat message (`Privmsg`) is lower-cased. A text with no entry
   gets a new entry holding its sender. A known text gets the sender appended,
   unless the sender is already in its list. Any other server message skips
   this part.
2. **Maintenance pass.** The map is walked in ascending key order. A key whose
   entry has at least `USER_THRESHOLD` (10) users is handed to the speech
   engine and marked. A key whose entry is at least `MESSAGE_LIFETIME` (10)
   whole seconds old is marked too. The two checks are independent `if`s, so a
   key can be marked twice. Then every marked key is removed.

The model has two modules:

- `KeyOrder` (`key_order.dfy`) holds the key order of the map. That is Rust's
  `Ord` for `String`, lexicographic by character (`Less`). It also gives the
  least key of a finite set and `Ordered(s)`, the sequence in which a
  `BTreeMap` with key set `s` is visited. It proves that this sequence is
  ascending and that it is the only ascending sequence of those keys.
- `Messages` (`messages.dfy`) holds the counter. `MessageData` is the entry,
  `ServerMessage` the incoming event, and `ToLower` the key function.
  `Update`, `Spoken` and `Survivors` are the specification of one step.
  `Counter` is a class holding the map in its `messages` field.
  `Receive` (the update) and `RemoveAll` (the second half of the pass) change
  the map in place. `Scan` (the walk of the pass) only reads it. `Sweep` runs
  the whole pass and `Ingest` runs one whole step.
  Each method's `ensures` ties the new map and the spoken texts to those
  specification functions. The lemmas state what the functions promise.

Time is an explicit `now: nat`, a reading of a monotonic clock in nanoseconds.
An entry's age is `AgeSecs`, which works like `Instant::elapsed().as_secs()`:
it saturates at zero and truncates to whole seconds. `USER_THRESHOLD` and
`MESSAGE_LIFETIME` become the `Counter`'s `threshold` and `lifetime`. The
`Default` constructor sets them to the program's values. The texts handed to
`tts.speak` are returned as `spoken`, in the order they are spoken.

Behaviours of the code that the model keeps, with the members that prove them:

- `modified` is written only when an entry is created (`src/main.rs:32`). A
  later sender does not refresh it, so an entry expires a fixed time after its
  first message (`UpdateKnownText`, `StepKeepsHistory`).
- The update runs before the pass in the same step. With threshold 3 and
  lifetime 5 s, "hi" from u1 at 0 s and from u2 at 6 s adds u2 to the old
  entry, and then the pass drops that entry. No entry is left
  (`LateSecondUserDropped`).
- A server message that is not a chat message skips the update but still runs
  the pass (`UpdateOther`, `Ingest`).
- The threshold check and the expiry check are two independent `if`s, so a key
  that is both popular and expired is marked twice. It is still spoken once and
  removed (`Scan`, `SpokenExactly`).
- `USER_THRESHOLD` and `MESSAGE_LIFETIME` are constants that nothing checks.
  The model accepts any values, zero included, and every property holds for all
  of them.

## Model

| member | source | states |
|---|---|---|
| `Messages.NewEntry` | src/main.rs:28-35 | A new entry's user list is exactly the one sender, and it is stamped with the current time |
| `Messages.ToLower` | src/main.rs:66 | The key keeps the text's length, and each character is that character lower-cased |
| `Messages.SameKeyIffCase` | src/main.rs:66 | Two texts get the same key if and only if they differ only in letter case |
| `Messages.ToLowerIdempotent` | src/main.rs:66 | A key is already lower case, so lower-casing it again changes nothing |
| `Messages.UpdateNewText` | src/main.rs:70-71 | A text whose key is absent gets a new entry `[sender]` stamped `now`; the other entries are unchanged |
| `Messages.UpdateKnownText` | src/main.rs:72-80 | For a known text, a repeat sender leaves the user list unchanged and a new sender is appended at the end; the timestamp and the other entries are unchanged |
| `Messages.UpdateIgnoresCase` | src/main.rs:66-80 | Chat messages that differ only in case make the same change to the map |
| `Messages.UpdateOther` | src/main.rs:63-83 | A server message that is not a chat message leaves the map unchanged before the pass |
| `Messages.UpdateWellFormed` | src/main.rs:64-80 | The update keeps every key lower case and every user list non-empty and free of duplicates |
| `Messages.UpdateKeepsHistory` | src/main.rs:75-79 | No entry loses a user or has its creation time changed by the update |
| `Messages.Update` | src/main.rs:64-80 | A non-chat message leaves the map as it is; a chat message adds exactly its lower-cased text as a key; no entry loses a user or changes its timestamp; an entry whose list grows is the message's key and grows by the sender at the end |
| `Messages.Spoken` | src/main.rs:88-94 | The texts the pass speaks are exactly the keys whose entries have at least `threshold` users |
| `Messages.Survivors` | src/main.rs:87-104 | The pass keeps only old keys; every kept entry is unchanged, below the threshold and younger than the lifetime; every key neither popular nor expired is kept |
| `Messages.HelloIsOneEntry` | src/main.rs:66-80 | "Hello" and "hELLO" from the same sender make the same change to the map |
| `Messages.AgeSecs` | src/main.rs:97 | The age is the number of whole seconds elapsed, truncated, and zero if the clock reads earlier than the stamp |
| `Messages.PopularKeys` | src/main.rs:88-94 | The spoken keys of a visit order are exactly the visited keys whose entries reach the threshold |
| `Messages.Counter.constructor` | src/main.rs:51 | A counter starts with an empty map and the given threshold and lifetime |
| `Messages.Counter.Default` | src/main.rs:18-20 | The program's counter has threshold 10 and lifetime 10 s |
| `Messages.Counter.Receive` | src/main.rs:64-80 | The map after a server message is `Update` of the map before, and stays well formed |
| `Messages.Counter.Scan` | src/main.rs:87-100 | The walk in key order speaks exactly `Spoken` of the map, and it marks exactly the keys whose entries are popular or expired |
| `Messages.Counter.RemoveAll` | src/main.rs:102-104 | Removing the marked keys leaves the old map without those keys |
| `Messages.Counter.Sweep` | src/main.rs:87-104 | The pass speaks `Spoken` of the old map and leaves `Survivors` of it, well formed |
| `Messages.Counter.Ingest` | src/main.rs:60-105 | One step speaks `Spoken` of the updated map and leaves `Survivors` of the updated map |
| `Messages.SurvivorsSettled` | src/main.rs:88-104 | After the pass, no entry has `threshold` or more users and none is `lifetime` or more seconds old |
| `Messages.SurvivorsUntouched` | src/main.rs:87-104 | The pass adds no key and keeps exactly the entries below threshold and younger than the lifetime, unchanged |
| `Messages.SurvivorsAreRest` | src/main.rs:102-104 | Removing every marked key, duplicates included, leaves exactly the survivors |
| `Messages.SurvivorsWellFormed` | src/main.rs:102-104 | The pass keeps the map well formed |
| `Messages.SpokenExactly` | src/main.rs:88-94 | A text is spoken if and only if its entry had at least `threshold` users, whether or not it had also expired |
| `Messages.SpokenAscending` | src/main.rs:88-94 | The spoken texts come in strictly ascending key order, so each is spoken at most once |
| `Messages.SpokenRemoved` | src/main.rs:90-104 | A spoken text has no entry after the pass, so its next occurrence starts a fresh entry |
| `Messages.StepKeepsHistory` | src/main.rs:29-32 | Across a whole step, a remaining entry keeps its creation time and all its users, and a new entry holds one user stamped now |
| `Messages.ThresholdReachedSpeaks` | src/main.rs:75-94 | The new user who brings an entry to `threshold` users makes the same step speak the text and remove it |
| `Messages.ThreeUsersSpeak` | src/main.rs:60-105 | With threshold 3 and lifetime 10 s, "hi", "HI" and "hi" from three users within a second: the third step speaks "hi" and leaves an empty map |
| `Messages.LateSecondUserDropped` | src/main.rs:64-104 | With threshold 3 and lifetime 5 s, "hi" from u1 at 0 s and from u2 at 6 s: u2 joins the old entry, nothing is spoken, and the pass leaves an empty map |
| `KeyOrder.Less` | src/main.rs:88 | The map's key order is strict (a key is never below itself); a proper prefix comes first, and otherwise the first differing character decides, which is the order Rust's byte-wise UTF-8 comparison of `String` gives |
| `KeyOrder.LessLexicographic` | src/main.rs:88 | One key is below another exactly when they agree up to some position and there the first ends or has the smaller character |
| `KeyOrder.Ordered` | src/main.rs:88 | The visit order of a key set holds every key exactly once |
| `KeyOrder.OrderedSorted` | src/main.rs:88 | The visit order is strictly ascending |
| `KeyOrder.OrderedUnfold` | src/main.rs:88 | The visit order starts with the least key and then visits the remaining keys in order |
| `KeyOrder.SortedUnique` | src/main.rs:88 | Two strictly ascending sequences with the same keys are equal, so the `BTreeMap` order is determined by the key set |

## Left out

- The tokio runtime, the spawned task, channel plumbing and the Ctrl-C shutdown (`src/main.rs:37-47`, `116-123`) are asynchronous orchestration. The model processes one event per `Ingest` call, in order.
- The Twitch IRC client, `join` and `part` (`src/main.rs:42-44`, `114`, `121`) are network I/O through a foreign crate. Events arrive as `ServerMessage` parameters, and every non-`Privmsg` variant is collapsed into `Other`.
- The `tts` crate (`src/main.rs:56`, `93`) is a foreign side effect. Only the list of texts passed to `speak` is modelled, and the panic of its `unwrap` is not.
- `tracing` and `println!` logging are not modelled.
- The real clock is not modelled. Each step takes one `now` reading, while the code reads `Instant::now()` when it creates an entry and again for every `elapsed()` in the pass. These readings can differ by the time the step itself takes.
- Messages.ToLower: only the ASCII capitals `A`-`Z` are lower-cased. Rust's `to_lowercase` follows full Unicode, which can change other characters and even the length of the text.
- The linear `users.contains` search is modelled as sequence membership.
- `usize` limits on the number of users or entries are not modelled, because the integers are unbounded.
