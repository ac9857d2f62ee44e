# tg-crypto-monitor core, modelled in Dafny

The monitor reads messages from Telegram channels and pulls out token "mint
addresses". It checks each address against a seen set that lives for the
life of the process: the set is written to its file on every change but never
loaded back, so each restart begins with an empty history. It records new
addresses in a small rolling feed and reports each one to a callback. A
one-shot gate passes the login code, supplied over HTTP, to the waiting login
step.

This project models four pieces of that core and proves their properties:

- `PersistentSets` (`persistent_set.dfy`): the `PersistentSet` class. It is an
  in-memory `set<string>` plus the state of its backing file. The file is
  `Missing`, `Unparseable`, or `Stored` with a list of strings. Every mutation
  rewrites the file with a duplicate-free listing of the set. `Persisted()`
  says the file and the memory agree, and every mutating method ensures it.
  `Load` covers its three outcomes: a missing file, an unparseable file, and
  a stored array.
- `MintExtractor` (`extractor.dfy`): `mint_address_if_exists` as pure
  functions over `seq<char>`. The two regular expressions become the
  predicates `MarkerMatchAt` and `WindowAt`. Two leftmost-match searches
  (`FindMarker`, `FindWindow`) and the greedy run end (`RunEnd`) carry their
  own contracts. The lemmas relate `Extract` to the predicates: the marker
  wins, the fallback is the leftmost base58 window, and `None` comes exactly
  when neither pattern matches.
- `Ingestion` (`ingestion.dfy`): `process_messages` as a method of
  `Monitor`. `Monitor` holds the two module-level stores and
  `MAX_FEED_SIZE`. The method returns the list of `on_change` arguments. It
  is proved against two functions: `Addresses`, the addresses a batch yields,
  and `NewAddresses`, the ones a pass announces. Lemmas about those functions
  give deduplication, "announced once", and "a second pass is silent".
- `CodeGate` (`code_gate.dfy`): `set_code` and `code_callback` over
  `five_digit_code` and `code_event`, as a class `Gate`. Its `SetCode` is tied
  to the pure function `Submit`. A lemma over any run of submissions proves
  the gate is write-once.

`Wrappers` (`wrappers.dfy`) holds `Option` and `Outcome`.

The module keeps both a rolling feed and a full seen set, and so does the
model. Eviction from the feed removes an arbitrary member (`list(set)[0]`).

## Model

| member | source | states |
|---|---|---|
| `PersistentSets.Enumerate` | tg_crypto_monitor/datatypes/persistent_set.py:29 | `list(set)` lists every member of the set exactly once: no duplicates, same elements, same size |
| `PersistentSets.NoDupSize` | tg_crypto_monitor/datatypes/persistent_set.py:74 | a duplicate-free list has as many distinct elements as entries, so the listing's length is the set's size |
| `PersistentSets.Parsed` | tg_crypto_monitor/datatypes/persistent_set.py:18-23 | reading an existing file: unparseable content gives the empty set; a stored array gives exactly its elements |
| `PersistentSets.PersistentSet.constructor` | tg_crypto_monitor/datatypes/persistent_set.py:8-11 | a new store starts empty and leaves the file untouched |
| `PersistentSets.PersistentSet.Load` | tg_crypto_monitor/datatypes/persistent_set.py:13-23 | missing file: the file becomes `[]` and the set is empty; unparseable file: the file is kept and the set is empty; stored array: the set has exactly the array's elements |
| `PersistentSets.PersistentSet.SaveToFile` | tg_crypto_monitor/datatypes/persistent_set.py:25-29 | afterwards the file lists exactly the in-memory set, each member once, and the set is unchanged |
| `PersistentSets.PersistentSet.Add` | tg_crypto_monitor/datatypes/persistent_set.py:31-35 | the set becomes old ∪ {x}; it is unchanged when x was already present; the file agrees with memory |
| `PersistentSets.PersistentSet.Remove` | tg_crypto_monitor/datatypes/persistent_set.py:37-41 | fails with `KeyError(x)` exactly when x is absent, and then nothing changes; otherwise the set becomes old − {x} and the file agrees |
| `PersistentSets.PersistentSet.Discard` | tg_crypto_monitor/datatypes/persistent_set.py:43-47 | the set becomes old − {x} whether or not x was present; the file agrees |
| `PersistentSets.PersistentSet.Clear` | tg_crypto_monitor/datatypes/persistent_set.py:49-53 | the set is empty and the file holds the empty array |
| `PersistentSets.PersistentSet.Update` | tg_crypto_monitor/datatypes/persistent_set.py:55-59 | the set becomes old ∪ every item of every given iterable; the file agrees |
| `PersistentSets.PersistentSet.Contains` | tg_crypto_monitor/datatypes/persistent_set.py:61-64 | the answer is membership in the set; nothing changes |
| `PersistentSets.PersistentSet.Size` | tg_crypto_monitor/datatypes/persistent_set.py:66-69 | the answer is the set's cardinality; nothing changes |
| `PersistentSets.PersistentSet.ToList` | tg_crypto_monitor/datatypes/persistent_set.py:71-74 | the list holds every member exactly once and nothing else; nothing changes |
| `PersistentSets.AddTwiceThenReload` | tg_crypto_monitor/datatypes/persistent_set.py:13-35 | from any starting file: adding x twice leaves the size as after one add; the file lists x exactly once; a new store loaded from that file contains x |
| `PersistentSets.SaveThenLoad` | tg_crypto_monitor/datatypes/persistent_set.py:13-59 | storing any set and loading the file into a new store reproduces exactly that set |
| `MintExtractor.RunEnd` | tg_crypto_monitor/__init__.py:30 | `[A-Za-z0-9]+` is greedy: every character up to the end is alphanumeric, and the next character is not, or the text ends |
| `MintExtractor.FindMarker` | tg_crypto_monitor/__init__.py:30 | the search returns the leftmost index where the marker is immediately followed by an alphanumeric character, or none when there is no such index |
| `MintExtractor.FindWindow` | tg_crypto_monitor/__init__.py:34-35 | the search returns the leftmost start of 44 consecutive base58 characters, or none when there is no such start |
| `MintExtractor.Extract` | tg_crypto_monitor/__init__.py:26-36 | an absent or empty message gives `None`; a returned address is never empty |
| `MintExtractor.ExtractMarker` | tg_crypto_monitor/__init__.py:30-32 | with the leftmost marker match at p, the result is the maximal alphanumeric run starting at p; this holds whatever base58 windows the text has, so the marker wins |
| `MintExtractor.ExtractWindow` | tg_crypto_monitor/__init__.py:33-36 | with no marker match, the result is the 44 characters at the leftmost base58 window |
| `MintExtractor.ExtractNoneIff` | tg_crypto_monitor/__init__.py:28-36 | `None` exactly when the message is absent or empty, or has neither a marker match nor a base58 window |
| `MintExtractor.ExtractIsSubstring` | tg_crypto_monitor/__init__.py:30-36 | every result is a substring of the message: the run after a marker match, or (with no marker) a 44-character base58 window holding no `0`, `O`, `I` or `l` |
| `MintExtractor.Base58Iff` | tg_crypto_monitor/__init__.py:34 | the alphabet has 58 characters: exactly the ASCII letters and digits other than `0`, `O`, `I` and `l` |
| `MintExtractor.LongRunYieldsFirst44` | tg_crypto_monitor/__init__.py:34-36 | a base58 run of 44 or more characters after window-free text yields its first 44 characters |
| `MintExtractor.MarkerThenRun` | tg_crypto_monitor/__init__.py:30-32 | the marker, then an alphanumeric run, then a non-alphanumeric character or nothing, yields exactly that run |
| `MintExtractor.MarkerThenAbc123` | tg_crypto_monitor/__init__.py:30-32 | the marker followed by `abc123` yields `abc123` |
| `Ingestion.Addresses` | tg_crypto_monitor/__init__.py:79-81 | a batch yields at most one address per message |
| `Ingestion.AddressesSpec` | tg_crypto_monitor/__init__.py:79-81 | an address is in a batch's list exactly when some message of the batch yields it |
| `Ingestion.NewAddressesSpec` | tg_crypto_monitor/__init__.py:80-84 | a pass announces exactly the batch's addresses that were not in the seen set, none of them twice |
| `Ingestion.NewAddressesSnoc` | tg_crypto_monitor/__init__.py:79-84 | one more message extends the announcements by its address exactly when that address is in neither the seen set nor the batch so far |
| `Ingestion.SecondPassSilent` | tg_crypto_monitor/__init__.py:82 | a second pass over addresses already recorded announces nothing |
| `Ingestion.AnnouncedOnce` | tg_crypto_monitor/__init__.py:82-94 | an address is announced at most once per pass, and it is announced exactly when the batch has it and the seen set did not |
| `Ingestion.Monitor.constructor` | tg_crypto_monitor/__init__.py:20-21 | the feed and the seen set are two distinct, empty stores over their own files |
| `Ingestion.FeedStep` | tg_crypto_monitor/__init__.py:81-88 | one more announcement keeps the feed equal to the old feed plus every announced address while that fits `MAX_FEED_SIZE`, and at exactly `MAX_FEED_SIZE` members of it afterwards |
| `Ingestion.FeedTracksBound` | tg_crypto_monitor/__init__.py:85-88 | after an announcement the feed fits `MAX_FEED_SIZE`, and is either everything it could hold or exactly `MAX_FEED_SIZE` members |
| `Ingestion.Monitor.TrimFeed` | tg_crypto_monitor/__init__.py:85-88 | discards only members of the feed, one at a time, and stops as soon as it fits: exactly min(old size, `MAX_FEED_SIZE`) members remain; nothing changes when it already fits; the file agrees |
| `Ingestion.Monitor.ProcessMessage` | tg_crypto_monitor/__init__.py:80-94 | a message whose address is new adds it to both stores and is announced, and the feed keeps min(size of old feed plus the address, `MAX_FEED_SIZE`) members of old feed plus the address; otherwise neither store changes and nothing is announced; the seen set gains the address either way |
| `Ingestion.Monitor.ProcessMessages` | tg_crypto_monitor/__init__.py:77-94 | the callback receives exactly the announced addresses, in order; the seen set grows by every extracted address; the feed gains only announced addresses; after any announcement it is the old feed plus all announced addresses while that fits `MAX_FEED_SIZE`, and otherwise exactly `MAX_FEED_SIZE` of them; a batch with nothing new changes neither store |
| `Ingestion.Acquire` | tg_crypto_monitor/__init__.py:85 | a held `asyncio.Lock` never becomes available to the task that holds it |
| `Ingestion.DiscardAsWritten` | tg_crypto_monitor/datatypes/persistent_set.py:43-47 | `discard` completes exactly when its caller does not already hold the lock |
| `Ingestion.TrimLoopAsWritten` | tg_crypto_monitor/__init__.py:86-88 | the loop as written, run with the lock in a given state: it blocks exactly when the feed is over its bound and the lock is held; a lock that is free lets it discard down to min(size, `MAX_FEED_SIZE`) members |
| `Ingestion.TrimAsWritten` | tg_crypto_monitor/__init__.py:85-88 | trimming as written, lock taken around the loop: it never returns exactly when the feed is over its bound, and otherwise returns the feed unchanged |
| `Ingestion.TrimAsWrittenDeadlocks` | tg_crypto_monitor/__init__.py:85-88 | as written, trimming a feed over its bound never returns |
| `Ingestion.TrimAsWrittenWithinBound` | tg_crypto_monitor/__init__.py:85-88 | as written, a feed within its bound passes trimming untouched |
| `CodeGate.Submit` | tg_crypto_monitor/__init__.py:160-170 | a code is accepted exactly when none is stored and it lies in [10000, 99999]; acceptance stores it; rejection changes nothing; "already set" is checked before the range |
| `CodeGate.ReplayKeepsFirst` | tg_crypto_monitor/__init__.py:160-170 | over any run of submissions, a stored code never changes; from an empty gate the code that sticks is the first in-range one |
| `CodeGate.Gate.constructor` | tg_crypto_monitor/__init__.py:22-23 | the gate starts with no code and the event not set |
| `CodeGate.Gate.SetCode` | tg_crypto_monitor/__init__.py:156-170 | the new code and the answer are `Submit`'s; on success the code is stored and the waiter released; a rejection changes nothing |
| `CodeGate.Gate.CodeCallback` | tg_crypto_monitor/__init__.py:97-102 | resumes exactly when a code is stored, with that in-range code; otherwise keeps waiting |
| `CodeGate.Handshake` | tg_crypto_monitor/__init__.py:156-170 | a waiter first waits; `11111` succeeds; then `22222`, `9999` and `100000` are all rejected as already set; the waiter resumes with `11111` |
| `CodeGate.RangeRejections` | tg_crypto_monitor/__init__.py:164-167 | on an empty gate `9999` and `100000` are rejected as not five digits, and no code is stored |

## Left out

- Telegram access is not modelled: `fetch_target_groups`, `fetch_messages`, `monitor_channels`, the client start, the semaphore of 5, and the jittered sleep. These are network calls through telethon. This includes the channel-id filter at tg_crypto_monitor/__init__.py:51.
- The FastAPI app, the lifespan wrapper, and the `/latest` and `/health` routes are not modelled. They are framework plumbing. `/set_code` is modelled only as its gate logic: `HTTPException(400, …)` becomes `Fail(AlreadySet)` or `Fail(NotFiveDigit)`.
- asyncio concurrency is not modelled. Every store operation is atomic. `asyncio.Lock` appears only in the as-written trimming model of the finding below. The source releases the lock between the mutation and `_save_to_file`; the model makes both one step.
- `asyncio.Event` is modelled as the `released` flag. `code_callback`'s suspension is modelled as the answer `Waiting`.
- JSON text and file I/O are abstracted. The file is `Missing`, `Unparseable`, or `Stored` with a list of strings.
- JSON that parses but is not an array of strings is not modelled. For example, a number makes `set(...)` raise `TypeError`, and an object yields its keys.
- Write and read errors of the file system are not modelled.
- The store's `path` is not modelled. Each store owns exactly one file state.
- `Ingestion.Monitor.TrimFeed`: does not say which member is evicted, because `list(set)[0]` depends on Python's unspecified set iteration order. It is not "oldest first".
- `Ingestion.Monitor`: `MAX_FEED_SIZE` is a natural number. As written, a negative value from the environment hits the deadlock below at the first `discard`, before anything is removed. Only in the corrected trimming would it empty the feed and then fail with `IndexError` on `list(set)[0]`. That path is not modelled.
- Loading at start-up: the module never calls `load` on either store (tg_crypto_monitor/__init__.py:20-21 builds them and nothing loads them). So the `Monitor` constructor starts both stores empty and leaves their files alone, and the first `add` overwrites each file. The model promises nothing about history across restarts. `Load` is modelled as a method of the store all the same.
- `process_messages` uses only the text (`message.message`) of each message object, modelled as `Option<string>`.
- A plain `on_change` and a coroutine `on_change` are both modelled as one recorded call. A missing callback records nothing.
- `PersistentSet.__repr__` is not modelled. It only formats a string.
- tg_crypto_monitor/config.py, tg_crypto_monitor/main.py, scripts/create_telegram_application.py and test.js are not part of this model. They cover environment loading, logging, the uvicorn launch, app registration scraping, and a WebSocket client.
- The source has no subscriber registry or broadcaster. Fan-out exists only as the `on_change` callback.

## Findings

| source | as written | input that shows it | evidently intended | confidence | as-written member | corrected member |
|---|---|---|---|---|---|---|
| tg_crypto_monitor/__init__.py:85-88 | the loop holds `latest_mint_addresses._lock` while calling `discard`; `discard` acquires the same non-reentrant `asyncio.Lock`, so the task waits on itself forever | the default `MAX_FEED_SIZE` of 10 and an 11th new address (or `MAX_FEED_SIZE = 0` and one new address) | discard members until the feed fits its bound, then return | high; not executed | `Ingestion.TrimAsWrittenDeadlocks` | `Ingestion.Monitor.TrimFeed` |

The corrected member trims without holding the lock around the loop.
`Ingestion.Monitor.ProcessMessages` uses it. It is proved to leave exactly
min(old size, `MAX_FEED_SIZE`) members of the feed.
