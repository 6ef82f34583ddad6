# NudiX noodle vending machine: the backend's decision logic in Dafny

NudiX is a noodle vending machine. A FastAPI backend takes a customer's free-text
request and resolves it to one of four products, then commands an ESP32
dispenser over MQTT. The backend mirrors the device's status from a status
topic and keeps a bounded audit log. This project models the logic under the
web and MQTT glue and proves what it promises.

- **Products** (`products.dfy`): `NOODLE_MAP`, a four-entry dictionary from
  display name to dispense command, and `NOODLE_REVERSE_MAP`, the reverse map
  built by a dictionary comprehension. Both are modelled as the dictionaries a
  sequence of entries builds. It also holds the sentence "I'll prepare <name>
  for you! <tail>" that every resolver reply is built on, and the
  first-name-found scan the order dispatcher uses.
- **The fallback resolver** (`mock_ai.dfy`): the `get_ai_reply` that
  `main.py` defines when the language-model module cannot be imported. It is
  an if/elif chain of keyword tests on the lowercased message.
- **The language-model resolver** (`ai_model.dfy`): `get_ai_reply` of
  `ai_model.py`, as a class `Engine` whose field `cache` is the module's
  `response_cache`.
  - It normalises the message with `lower().strip()` and answers from the
    cache when it can.
  - Otherwise it scans `PRE_DEFINED_RESPONSES` in declaration order, and the
    first keyword found wins and is cached.
  - Otherwise it asks the model and post-processes its output.
  - The specification function `Respond` gives the reply and the new cache.
    The method is proved equal to it, and the properties are proved about
    `Respond`.
- **The stub agent** (`keyword_agent.dfy`): `chat_agent` of `test_main.py`, a
  ladder of "cold", "exhausted" and "starving".
- **The server** (`backend.dfy`): `main.py`'s globals become the class
  `Server`: `mqtt_connected`, `device_status`, `last_status_update` and
  `system_logs`.
  - `add_log`, the MQTT callbacks, `mqtt_publish`, `/chat` and both manual
    dispense routes are its methods.
  - `mqtt_publish` is an oracle. Whether the broker accepts a message is a
    parameter. A ghost field `published` records every message handed to the
    client, so "no publish" and "exactly one publish" can be stated.
  - The log's length bound and the cache invariant `CacheAgrees` together form the class invariant `Valid()`.
  - The 50-entry log is shown to hold exactly the newest 50 entries of its
    whole history (`LogIsWindow`).
- **Text** (`text.dfy`) states the Python string operations used: `lower()`,
  `strip()`, `in`, `startswith` and `split(sep)[-1]`.

Every reply literal of the source is written as the same text, built from
pieces: `Offer(name, tail)` for the resolvers, and prefix + name + suffix for
the stub. The "names exactly one product" lemmas show that a given product
name does not occur in a reply. They do so by finding a letter, or a pair of
adjacent letters, of that name that the reply lacks.

When the language model's output does not start with "I'll prepare",
post-processing looks for the product in the user's normalised message
(`NUDI_X/ai_model.py:104-109`), not in the model's output.

The language-model resolver's cache keeps one invariant, `CacheAgrees`: a
cached key in which some keyword occurs holds the reply of the first such
keyword's row. Only the table scan caches such a key, so `Respond` preserves
the invariant, and `Engine` and `Server` keep it as part of `Valid()`. This
makes the keyword precedence hold on cache hits too.

## Model

| member | source | states |
|---|---|---|
| Products.NameToCode | NUDI_X/main.py:184-189 | the dictionary a display builds holds every entry's name as a key and has no more keys than entries |
| Products.CodeToName | NUDI_X/main.py:191 | the comprehension `{v: k for k, v in ...}` holds every entry's code as a key and has no more keys than entries |
| Products.FirstNamed | NUDI_X/ai_model.py:104-109 | the product picked is one of the four and its lowercased name occurs in the text; none is picked only when no lowercased name occurs |
| Products.NameToCodeHolds | NUDI_X/main.py:184-189 | a dictionary display with distinct keys maps each entry's name to its code and holds no key that is not an entry's name |
| Products.CodeToNameHolds | NUDI_X/main.py:191 | the comprehension `{v: k for k, v in ...}` over entries with distinct codes maps each code to its entry's name and holds no other key |
| Products.ReverseMapInverts | NUDI_X/main.py:184-191 | the four codes are distinct; name to code to name and code to name to code both round-trip |
| Products.NoodleMapsHoldEntries | NUDI_X/main.py:184-191 | both dictionaries agree with every entry of `NOODLE_MAP` |
| Products.OfferNames | NUDI_X/ai_model.py:112 | "I'll prepare <name> for you! <tail>" names that product, case-insensitively, and starts with "I'll prepare", whatever the tail |
| Products.FirstNamedIsFirst | NUDI_X/main.py:277-280 | the scan picks the earliest product in `NOODLE_MAP` order whose lowercased name occurs, and picks none exactly when no name occurs (both directions) |
| Products.FirstNamedOnly | NUDI_X/main.py:277-280 | a text naming exactly one product has that product picked |
| MockAi.MockReply | NUDI_X/main.py:203-217 | the fallback `get_ai_reply` answers every message with an offer of the product its keyword precedence picks |
| MockAi.MockProduct | NUDI_X/main.py:206-217 | the product the chain recommends is always one of the four |
| MockAi.MockHotFirst | NUDI_X/main.py:206-207 | "spicy" or "hot" anywhere, in any case, yields the Hot Spicy Ramen reply whatever other keywords occur |
| MockAi.MockUnmatchedIsHot | NUDI_X/main.py:216-217 | a message matching no branch gets the "most popular" reply, which names Hot Spicy Ramen |
| MockAi.MockIgnoresCase | NUDI_X/main.py:204 | messages equal up to letter case get the same reply |
| MockAi.SpicyReplyNamesOnly | NUDI_X/main.py:207 | this reply names Hot Spicy Ramen and no other product |
| MockAi.ChickenReplyNamesOnly | NUDI_X/main.py:209 | this reply names Chicken Noodles and no other product |
| MockAi.CheeseReplyNamesOnly | NUDI_X/main.py:211 | this reply names Cheese Noodles and no other product |
| MockAi.VegReplyNamesOnly | NUDI_X/main.py:213 | this reply names Veg Clear Soup and no other product |
| MockAi.TestReplyNamesOnly | NUDI_X/main.py:215 | this reply names Hot Spicy Ramen and no other product |
| MockAi.PopularReplyNamesOnly | NUDI_X/main.py:217 | this reply names Hot Spicy Ramen and no other product |
| MockAi.MockNamesOneProduct | NUDI_X/main.py:204-217 | for every message, the reply names exactly one product, the one the keyword precedence picks |
| KeywordAgent.ChatAgent | test_main.py:23-33 | the stub is total and answers every message with one of its four sentences |
| KeywordAgent.ChatAgentLadder | test_main.py:24-33 | the answer is "cold"'s exactly when "cold" occurs; "exhausted"'s exactly when it occurs without "cold"; "starving"'s exactly when only it occurs; the soup exactly otherwise; so exactly one of the four |
| KeywordAgent.ChatAgentIgnoresCase | test_main.py:24 | messages equal up to letter case get the same answer |
| KeywordAgent.ColdReplyNamesOnly | test_main.py:27 | the "cold" sentence names Hot Spicy Ramen and no other product |
| KeywordAgent.ExhaustedReplyNamesOnly | test_main.py:29 | the "exhausted" sentence names Cheese Noodles and no other product |
| KeywordAgent.StarvingReplyNamesOnly | test_main.py:31 | the "starving" sentence names Chicken Noodles and no other product |
| KeywordAgent.SoupReplyNamesOnly | test_main.py:33 | the last sentence names Veg Clear Soup and no other product |
| KeywordAgent.ChatAgentNamesOneProduct | test_main.py:26-33 | the product named is Hot Spicy Ramen iff "cold" occurs, Cheese Noodles iff "exhausted" does and "cold" does not, Chicken Noodles iff only "starving" does, Veg Clear Soup otherwise |
| AiModel.Normalize | NUDI_X/ai_model.py:66 | the key `lower().strip()` holds no ASCII capital and no whitespace at either end |
| AiModel.Extract | NUDI_X/ai_model.py:98-99 | the extracted response never contains "Assistant:", and an output without it is kept unchanged |
| AiModel.PostProcess | NUDI_X/ai_model.py:101-114 | whatever the model produced, the post-processed reply starts with "I'll prepare" |
| AiModel.Respond | NUDI_X/ai_model.py:62-126 | a call that leaves its key cached holds there the reply it gave; a cache that agrees with the keyword table still agrees after the call |
| AiModel.Engine.constructor | NUDI_X/ai_model.py:15 | the cache starts empty, so it agrees with the keyword table; whether the model loaded is fixed |
| AiModel.Engine.GetAiReply | NUDI_X/ai_model.py:62-126 | the reply and the new cache are exactly `Respond` of the old cache: cache hit, first keyword, not loaded, raised, post-processed output; the cache keeps agreeing with the table |
| AiModel.ScanTable | NUDI_X/ai_model.py:71-74 | the loop returns the first row whose keyword occurs in the key, or none when no keyword occurs |
| AiModel.FindMentioned | NUDI_X/ai_model.py:104-109 | the loop returns the first of the four products named in the user's normalised text, or none when none is named |
| AiModel.RespondCache | NUDI_X/ai_model.py:66-117 | a call never changes or drops a cached reply and adds at most its own key, cached with the reply it gives; a cached key answers with its stored reply and leaves the cache as it was |
| AiModel.NotLoadedGivesDefault | NUDI_X/ai_model.py:77 | on a miss no keyword matches, with the model not loaded: the default reply, cache unchanged |
| AiModel.RaisedGivesDefault | NUDI_X/ai_model.py:120-123 | on a miss no keyword matches, a model call that raises gives the default reply and caches nothing |
| AiModel.DecodedIsPostProcessed | NUDI_X/ai_model.py:96-118 | on a miss no keyword matches, the decoded output is post-processed against the key, given, and cached under the key |
| AiModel.UncachedMeansDefault | NUDI_X/ai_model.py:120-126 | a call that leaves its key uncached (model not loaded, or raised) gave the default reply and left the cache unchanged |
| AiModel.NormalizeIdempotent | NUDI_X/ai_model.py:66 | `lower().strip()` applied twice is applied once |
| AiModel.RespondIdempotent | NUDI_X/ai_model.py:66-74 | once a key is cached, any later message with the same normal form gets the same reply, whatever the model would do, and changes nothing |
| AiModel.FirstKeywordWins | NUDI_X/ai_model.py:71-74 | on a miss, the earliest row whose keyword occurs answers, whatever later keywords occur, and its reply is cached under the key |
| AiModel.SpicyRowWins | NUDI_X/ai_model.py:43 | on a miss, a key holding "spicy" gets the first row's reply |
| AiModel.HotRowWins | NUDI_X/ai_model.py:44 | on a miss, a key holding "hot" but not "spicy" gets the second row's reply |
| AiModel.HeadKeywordHit | NUDI_X/ai_model.py:43-44 | the table scan of a key holding "spicy" or "hot" stops at the first or the second row |
| AiModel.HotKeywordsFirst | NUDI_X/ai_model.py:43-44 | with a cache that agrees with the table, a key holding "spicy" or "hot" gets one of the first two rows' replies, whether it is cached or not |
| AiModel.HeadRowsNameHot | NUDI_X/ai_model.py:43-44 | both of those replies name Hot Spicy Ramen |
| AiModel.HotBeforeChicken | NUDI_X/ai_model.py:44-45 | a message whose normal form is "hot chicken" gets the "hot" row, not the "chicken" row |
| AiModel.TableRepliesNameAProduct | NUDI_X/ai_model.py:43-59 | every row's reply offers one of the four products and names it, so the dispatcher finds a product in it |
| AiModel.ExtractDropsEcho | NUDI_X/ai_model.py:98-99 | the extracted response never contains "Assistant:"; when the output does, it is the stripped text after one of its occurrences |
| AiModel.PostProcessRewrites | NUDI_X/ai_model.py:102-114 | a response not in offer form becomes exactly "I'll prepare <name> for you! <response>" for the first product the user's text names; with no product named it is replaced by the default reply |
| AiModel.PostProcessKeepsOffer | NUDI_X/ai_model.py:102 | a response already starting with "I'll prepare" is kept as it is |
| Text.Lower | NUDI_X/main.py:204 | `lower()` keeps the length and maps each ASCII capital to its small letter, every other character to itself |
| Text.Strip | NUDI_X/ai_model.py:66 | `strip()` is no longer than its input and leaves no whitespace at either end |
| Text.Contains | NUDI_X/ai_model.py:72 | `t in s` holds only when `t` fits in `s` |
| Text.AfterLast | NUDI_X/ai_model.py:99 | `split(sep)[-1]` is a suffix of its input |
| Text.StripKeepsAbsence | NUDI_X/ai_model.py:99 | stripping cannot make a substring occur |
| Text.StripIsTrimmedSlice | NUDI_X/ai_model.py:66 | `strip()` returns the slice between the leading and trailing whitespace runs, and it has no whitespace at either end |
| Text.AfterLastSplits | NUDI_X/ai_model.py:99 | the text after the last separator is what follows some occurrence of the separator, and contains no separator |
| Text.FirstOccurring | NUDI_X/ai_model.py:71-74 | the first key, in order, that occurs in the text; no earlier key occurs; none means no key occurs |
| Backend.Appended | NUDI_X/main.py:93-97 | after `add_log` the log holds at most 50 entries and the new entry is last; below 50 it grows by that entry; at 50 the oldest is dropped and the rest keep their order |
| Backend.LogIsWindow | NUDI_X/main.py:89-97 | from a log within the bound, any run of `add_log` calls leaves exactly the newest 50 entries of the whole history, oldest first |
| Backend.Selected | NUDI_X/main.py:276-280 | the product picked is one of the four and the reply names it; none is picked only when the reply names none |
| Backend.SelectedIsFirstNamed | NUDI_X/main.py:276-280 | the dispatcher picks at most one product, the earliest in `NOODLE_MAP` order that the reply names; none exactly when the reply names none |
| Backend.MockReplyDispatches | NUDI_X/main.py:273-280 | with the fallback resolver, the product dispatched is the one its keywords chose |
| Backend.AiHotMessageDispatchesHot | NUDI_X/main.py:273-280 | with the language model in use and a cache that agrees with the table, a message holding "spicy" or "hot" dispatches Hot Spicy Ramen, from the cache or from the scan |
| Backend.TableReplyDispatches | NUDI_X/main.py:277-280 | a reply from the keyword table always has a product to dispatch |
| Backend.DispenseCommand | NUDI_X/main.py:323-324 | a command is built exactly for the numbers 1..4 |
| Backend.DispenseCommandIsCode | NUDI_X/main.py:323-325 | the range check accepts exactly 1..4; for those, the command is the code of the n-th product, and the reverse map takes it to that product's name and back |
| Backend.DispenseCommandInjective | NUDI_X/main.py:323-324 | distinct accepted numbers give distinct commands |
| Backend.Server.constructor | NUDI_X/main.py:36-40 | not connected, status "disconnected", no status time, empty log, nothing published |
| Backend.Server.AddLog | NUDI_X/main.py:89-97 | the log becomes `Appended` of the old log and the formatted entry; the 50-entry bound is kept |
| Backend.Server.MqttPublish | NUDI_X/main.py:127-143 | succeeds iff connected and the broker accepts; hands the message to the client iff connected |
| Backend.Server.OnConnect | NUDI_X/main.py:44-58 | on rc 0: connected, status "ready", status time now, "ready" published on the status topic; otherwise: not connected, status "mqtt_error", nothing else changes |
| Backend.Server.OnDisconnect | NUDI_X/main.py:60-63 | the client is marked disconnected |
| Backend.Server.OnMessage | NUDI_X/main.py:65-87 | status topic: status is the payload verbatim, time updated, a DEVICE entry iff the payload holds "dispensing", "ready" or "busy"; log topic: one SYSTEM entry; any other topic or an undecodable payload: nothing changes |
| Backend.Server.GetReply | NUDI_X/main.py:193-217 | the reply comes from the language-model resolver when its module imported, otherwise from the fallback chain |
| Backend.Server.Chat | NUDI_X/main.py:269-309 | selected and "ready": one ORDER entry even if the publish fails, one publish of the code when connected, success equals the publish result, command and action only on success; selected and not ready: busy warning naming the status, no log, no publish; nothing selected: info message, no log, no publish |
| Backend.Server.ManualDispense | NUDI_X/main.py:319-395 | for 1..4: one MANUAL entry naming the product, one publish of `noodle_<n>` when connected, success equals the publish result; otherwise "Invalid noodle number (must be 1-4)", no log, no publish |
| Backend.SelectNoodle | NUDI_X/main.py:276-280 | the loop with `break` returns the first product the reply names, or none, the same as `Selected` |

## Left out

- `lower()` is modelled for the ASCII letters A-Z only. Python also folds
  other Unicode capitals. Every literal in the core is ASCII apart from emoji,
  which have no case.
- `split(sep)[-1]` is modelled as the text after the last occurrence of the
  separator. The two agree for "Assistant:", which cannot overlap itself.
- Timestamps (`datetime.now()`, `time.time()`) are parameters: the time-of-day
  text of a log entry and the integer time of a status change. The
  `timestamp` keys of the responses are not modelled.
- The MQTT client itself is not modelled: connect, `loop_start`, the will
  message, subscriptions, and `qos`/`retain`. `mqtt_publish` is an oracle.
  Its `mqtt_client` being `None` is folded into `mqttConnected`, which the
  connect callback sets only after a client exists.
- Threading and async are not modelled: the background MQTT thread, the
  startup wait loop, the `status_checker` poll, and the unsynchronised
  cross-thread access to the globals. Each handler runs as one atomic step.
- `startup_event` (status "connecting", then "ready" or "mqtt_disconnected")
  is not modelled. It depends on the thread timing above.
- The WebSocket broadcast in `add_log` is not modelled. `active_connections`
  is never filled.
- The catch-all `except` paths of `/chat` and the manual dispense routes are
  not modelled, because no modelled step can raise there. `on_message`'s
  handler is modelled for its one modelled failure, an undecodable payload.
- The other routes are not modelled: `/`, `/status` (float time arithmetic),
  `/logs`, `/emergency_stop`, `/test_motor`, `/debug`, `/test-cors` and
  `/system_info`. They are read-only reports or raw command relays outside the
  decision logic.
- Loading the language model and running `generate` are not modelled. They
  are a foreign, nondeterministic library. A call's outcome is a parameter:
  the decoded text, or that it raised.
- FastAPI, Pydantic and CORS wiring are not modelled. `setup.py`, the web UI,
  the HTTP smoke scripts and the root `main.py` wrapper are not part of this
  model.
- Backend.Server.GetReply: `AI_ENABLED` is a constructor parameter. The
  import that decides it is not modelled.
