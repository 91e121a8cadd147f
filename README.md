# Flock server: a Dafny model of the agent API, Keybase notifications and the gateway

Flock collects osquery telemetry from Mac agents. This project models the
parts of the server that decide what an agent may do and what gets stored:

- **The agent API** (`flock_api.dfy`, module `FlockApi`). It covers
  registration, token authentication, `/ping` and `/submit`. The "user"
  index and the telemetry archive are fields of the class `Server`. An
  agent registers a username that must match `[A-Za-z0-9_-]*`. The display
  name loses the characters `` `{}!@#$%^&*_ ``. The server hands out a
  token, and a request is authenticated when exactly one user document
  matches both the username and the token. `/submit` takes a JSON array of
  objects. Every object must carry the caller's `hostIdentifier`, and the
  first failing item is reported. Each document with a `unixTime` gets an
  `@timestamp` in `YYYY-MM-DDTHH:MM:SS.000Z` form before it is archived.
- **Python's integer and time conversions used by `/submit`** (`decimal.dfy`,
  `utc_time.dfy`). `int()` is modelled on decoded JSON values, and
  `datetime.utcfromtimestamp` on the proleptic Gregorian calendar of years
  1 to 9999. `strftime` is modelled too. The conversion is proved to be the
  inverse of the closed-form count of seconds that a calendar time denotes.
- **Keybase notifications** (`keybase_notifications.dfy`, module
  `Keybase`). This covers the fixed catalog of notification kinds and the
  single persisted settings record. That record is created with every kind
  enabled on first use and reset when it cannot be decoded. A kind missing
  from it is added as enabled. It also covers the queue of undelivered
  notifications and the chat rendering of a notification.
- **The gateway** (`gateway_tokens.dfy`, `gateway_app.dfy`). This is a
  lighter server with a file-backed username-to-token map, registration
  and a `host_uuid` check on submissions.

The supporting modules are:

- `wrappers.dfy`: `Option`.
- `json.dfy`: decoded JSON and request bodies.
- `http.dfy`: credentials and the four kinds of reply: 401, 400 with an
  error, 500 (an uncaught exception) and 200.
- `text.dfy`: substring containment.

Four behaviours of the code are worth stating plainly, because a reader
might expect otherwise:

- **Partial archiving.** A batch that passed validation is archived one
  document at a time. A `unixTime` that `int()` or `utcfromtimestamp`
  rejects raises in the middle of that loop. The route then fails with an
  internal error, and the documents before the bad one stay archived. The
  batch is not archived atomically.
- **Settings are not pruned.** `_is_enabled` never removes keys of kinds
  that left the catalog. It adds only the kind it was asked about, not
  every missing kind.
- **No username check on the gateway.** Gateway registration accepts any
  non-empty username. The gateway's own tests
  (gateway/tests/test_api.py:14-22) expect usernames with spaces or
  apostrophes to be refused, but the code has no such check. The model
  follows the code.
- **Gateway bodies other than objects.** A JSON body that is a number,
  `null`, a boolean, a list holding `"host_uuid"` or a string containing
  `host_uuid` makes the gateway's `submit` raise. Each of these gives a
  500 reply, not a 400.

Two of the source's tests cannot reach the scenarios they describe as
written. `src/tests/test_api.py:6` posts `/register` as JSON, while the
route reads form fields (`src/flock_server/api.py:63`).
`gateway/tests/test_tokens.py:9` passes a path to `Tokens`, whose
constructor takes none (`gateway/tokens.py:7`). The scenario methods
`FlockApi.SubmitListScenario` and `GatewayTokens.GeneratedTokensSurviveReload`
state what those tests check, for the behaviour of the code.

Randomness (`secrets.token_hex`) is a parameter of the operations that use
it. The clock is the `now` parameter of `Keybase.KeybaseNotifications.Add`;
the other uses of `datetime.now()` are left out. Elasticsearch searches with
`match` are modelled as exact comparisons. The tokens file is a field
holding the map it contains, or `None` while the file does not exist.

## Model

| member | source | states |
|---|---|---|
| Decimal.ParseShow | src/flock_server/api.py:129 | `int()` reads back every integer written in decimal: parsing the decimal text of `i` gives `i` |
| Decimal.PaddedValue | src/flock_server/api.py:129 | a zero-padded field of a `strftime` rendering reads back as the number it pads |
| UtcTime.FromEpochSeconds | src/flock_server/api.py:129 | `utcfromtimestamp(t)` succeeds exactly for `t` in years 1..9999; then the result is a valid calendar time denoting `t` seconds after the epoch |
| UtcTime.FromEpochSecondsOfValid | src/flock_server/api.py:129 | converting the seconds a valid calendar time denotes gives back that calendar time |
| UtcTime.EpochSecondsInjective | src/flock_server/api.py:129 | two valid calendar times denoting the same instant are equal |
| UtcTime.Render | src/flock_server/api.py:129 | the `%Y-%m-%dT%H:%M:%S.000Z` rendering is always 24 characters |
| UtcTime.ParseRender | src/flock_server/api.py:129 | the rendering loses nothing: reading it back gives the calendar time |
| FlockApi.ErrorMessage | src/flock_server/api.py:67-123 | defined as: the `error_msg` of each 400 reply of `register` and `submit`, with the failing item's index written as `str(i)` writes it |
| FlockApi.DuplicateMessageSaysAlreadyRegistered | src/flock_server/api.py:86 | the duplicate-registration message contains "already registered" |
| FlockApi.SpacesAndApostrophesRejected | src/flock_server/api.py:69-73 | a username containing a space or an apostrophe is invalid |
| FlockApi.CheckUsername | src/flock_server/api.py:69-73 | the character scan accepts exactly the usernames over letters, digits, `_` and `-` |
| FlockApi.StripName | src/flock_server/api.py:75-81 | the stripping loop yields the name with the blacklisted characters dropped |
| FlockApi.StrippedIsClean | src/flock_server/api.py:75-81 | no blacklisted character survives stripping |
| FlockApi.StrippedIsSubsequence | src/flock_server/api.py:75-81 | the stripped name is the input with characters left out and the rest in order |
| FlockApi.StrippedKeepsOthers | src/flock_server/api.py:75-81 | every character outside the blacklist is kept as many times as it occurs |
| FlockApi.NoMatchesWhenUnregistered | src/flock_server/api.py:19-24 | an unregistered username matches no user document, whatever the token |
| FlockApi.Server.CheckAuth | src/flock_server/api.py:19-24 | defined as: exactly one user document matches both the username and the token |
| FlockApi.Server.Admits | src/flock_server/api.py:31-38 | defined as: credentials are present and pass `check_auth`; `Ping` and `Submit` reply 401 exactly when this fails |
| FlockApi.CheckAuthIffStored | src/flock_server/api.py:19-24 | with unique usernames, `check_auth` holds exactly when a user document carries both the username and the token |
| FlockApi.RegisteredTokenAuthenticates | src/flock_server/api.py:88-93 | once a new user is saved, its token authenticates it and every other token fails |
| FlockApi.RegisterKeepsUnique | src/flock_server/api.py:83-91 | adding a username that is not registered keeps usernames unique |
| FlockApi.IntOf | src/flock_server/api.py:129 | defined as `int()` of a decoded value: an integer is itself, `true`/`false` are 1/0, a string is read as an optionally signed ASCII decimal, and anything else raises (`None`) |
| FlockApi.Stamp | src/flock_server/api.py:127-129 | defined as: a document without `unixTime` is kept as is; otherwise `@timestamp` is set to the rendering of `utcfromtimestamp(int(unixTime))`, and `None` where either call raises; its meaning is stated by `StampMeaning` |
| FlockApi.StampMeaning | src/flock_server/api.py:127-129 | an archived document keeps every field except `@timestamp`; it is unchanged without `unixTime`; otherwise its `@timestamp` reads back as the calendar time of `int(unixTime)` |
| FlockApi.IntOfShownInteger | src/flock_server/api.py:129 | a `unixTime` string holding an integer's decimal text converts to that integer |
| FlockApi.ArchivedDocsAll | src/flock_server/api.py:126-135 | when every document stamps, each is archived exactly once and in order |
| FlockApi.ArchivedDocsStopAtFailure | src/flock_server/api.py:126-133 | a document at index `k` whose `unixTime` cannot be converted leaves exactly the `k` earlier documents archived |
| FlockApi.ValidateBatch | src/flock_server/api.py:115-123 | the validation loop passes exactly the batches whose items are all objects naming the caller; otherwise it reports the first failing item with its kind of failure |
| FlockApi.Server.Register | src/flock_server/api.py:61-93 | a missing username, an invalid one and a registered one each get their 400; otherwise exactly one user document is added with the stripped name and the new token, which then authenticates; unique usernames stay unique; a refusal changes nothing |
| FlockApi.Server.Ping | src/flock_server/api.py:96-100 | 401 exactly when authentication fails, otherwise success |
| FlockApi.Server.ArchiveBatch | src/flock_server/api.py:125-133 | the loop reports success exactly when every document stamps, and the archive grows by the stamped documents up to the first failure |
| FlockApi.Server.Submit | src/flock_server/api.py:103-135 | 401 without valid credentials; 400 for bad JSON, a non-array or the first bad item, with nothing archived; otherwise the documents are archived up to any failing `unixTime`, and the reply is the batch size or a 500 |
| FlockApi.SubmitListScenario | src/tests/test_api.py:116-152 | a registered host's bare object gets "not an array"; one good item gives count 1; a batch whose second item names another host is refused at index 1; three good items give count 3 |
| Keybase.CatalogIdsListed | src/flock_server/keybase_notifications.py:9-15 | the catalog kinds are `user_registered`, `user_already_exists` and `reverse_shell` |
| Keybase.KeybaseNotifications.DefaultSettings | src/flock_server/keybase_notifications.py:18-22 | the defaults have exactly the catalog kinds as keys, all enabled |
| Keybase.Lookup | src/flock_server/keybase_notifications.py:24-52 | defined as the answer of `_is_enabled` and the settings record it leaves, branch by branch; its properties are the `Lookup*` lemmas |
| Keybase.LookupUnknownKind | src/flock_server/keybase_notifications.py:24-26 | a kind outside the catalog is never enabled, and the settings record is not touched |
| Keybase.LookupRepairs | src/flock_server/keybase_notifications.py:28-52 | for a catalog kind, the record afterwards decodes and holds the answer under that kind; a missing or undecodable record becomes the defaults; a decoded record keeps every other key and value |
| Keybase.LookupIdempotent | src/flock_server/keybase_notifications.py:24-52 | asking twice gives the same answer, and the second time writes nothing |
| Keybase.LookupStoredKind | src/flock_server/keybase_notifications.py:45-46 | a catalog kind the decoded record already holds is answered with its stored value, and the record is not written |
| Keybase.LookupDisabledMeansStored | src/flock_server/keybase_notifications.py:36-46 | a catalog kind is reported disabled only when the decoded record stores it as disabled |
| Keybase.KeybaseNotifications.IsEnabled | src/flock_server/keybase_notifications.py:24-52 | the answer and the new settings record are those of the lookup on the old record |
| Keybase.KeybaseNotifications.Add | src/flock_server/keybase_notifications.py:54-63 | the settings record and queue afterwards are one `add` step on the old ones |
| Keybase.AddStep | src/flock_server/keybase_notifications.py:54-63 | defined as `add` on the settings record and the queue; its properties are `AddQueuesEnabledKindsOnly` and `DisabledNeverQueued` |
| Keybase.AddQueuesEnabledKindsOnly | src/flock_server/keybase_notifications.py:54-63 | `add` leaves the settings record as `_is_enabled` does; when the kind is enabled it appends one undelivered record of that kind after the existing queue; otherwise the queue is unchanged |
| Keybase.DisabledNeverQueued | src/flock_server/keybase_notifications.py:54-63 | once a kind is stored as disabled, no sequence of `add` calls queues it; the kind stays disabled, and earlier queue entries are kept |
| Keybase.Format | src/flock_server/keybase_notifications.py:65-69 | defined as: for a warning kind, the `@here` siren prefix, the description, a closing siren and the details in a code block; for any other kind, the description, a colon and the details in a code block |
| Keybase.FormatWarnsExactlyWarnings | src/flock_server/keybase_notifications.py:65-69 | a message starts with the `@here` warning marker exactly when its kind is a warning |
| Keybase.FormatInjective | src/flock_server/keybase_notifications.py:65-69 | the message determines the notification kind and the text of the details |
| GatewayTokens.Tokens.constructor | gateway/tokens.py:7-9 | a new registry holds the file's map, or the empty map, which is then saved |
| GatewayTokens.Tokens.Load | gateway/tokens.py:11-17 | an absent file gives the empty map and creates the file; otherwise the map is the file's |
| GatewayTokens.Tokens.Save | gateway/tokens.py:19-21 | the file holds the current map |
| GatewayTokens.Tokens.Exists | gateway/tokens.py:29-30 | defined as: the username is a key of the map |
| GatewayTokens.Tokens.Get | gateway/tokens.py:23-30 | a token is returned exactly for a known username, and it is that username's token |
| GatewayTokens.Tokens.Generate | gateway/tokens.py:32-36 | the username gets the new token, replacing any earlier one; the map is saved, and every other username keeps its token |
| GatewayTokens.GeneratedTokensSurviveReload | gateway/tests/test_tokens.py:4-23 | a registry reloaded from the file finds every generated token, and a second `generate` overwrites the first |
| GatewayApp.Gateway.CheckAuth | gateway/gateway/__init__.py:22-23 | authentication holds exactly when the username is in the map and the password is its token |
| GatewayApp.Gateway.Admits | gateway/gateway/__init__.py:30-37 | defined as: credentials are present and pass `check_auth`; `Submit` replies 401 exactly when this fails |
| GatewayApp.HostUuidCheck | gateway/gateway/__init__.py:82-84 | success exactly for an object whose `host_uuid` is the username; every other body gets the wrong-`host_uuid` 400, or a 500 where Python raises, which never happens for an object |
| GatewayApp.Gateway.Register | gateway/gateway/__init__.py:59-70 | a missing username and a registered one each get their 400, changing nothing; otherwise the username gets the new token, the tokens file is saved with the new map, and the token then authenticates |
| GatewayApp.Gateway.Submit | gateway/gateway/__init__.py:73-88 | 401 exactly without valid credentials; 400 for bad JSON; success exactly for an object whose `host_uuid` is the caller's username; the other bodies give 400 or, where Python raises, 500 |
| GatewayApp.RegisterTwiceScenario | gateway/tests/test_api.py:25-89 | the first registration succeeds and returns its token; registering the name again is refused; the first token then submits for that host; a body without `host_uuid` or naming another host is refused |

The lemmas `Keybase.PlainFormatShape`, `Keybase.WarningFormatShape`,
`Keybase.PlainDescriptionsDiffer`, `FlockApi.ArchivedDocsSplit` and the
calendar step lemmas of `UtcTime` are proof helpers for the rows above.

## Left out

- Queued notifications are never delivered anywhere in the source, and no chat commands are handled there. `src/flock_server/keybase.py` only starts a bot whose handler prints each event. The model covers the queueing side, which is all that exists.
- The admin web app (`admin/`), the app factories (`src/app.py`, `gateway/app.py`), `gateway/gateway/user.py` and the Elasticsearch document classes (`src/flock_server/elasticsearch.py`) are not part of this model.
- The `/es-test` route and the gateway's `/` page are left out. They are diagnostics with no state or rules.
- JSON encoding of replies is left out: the `error` and `error_msg` fields, and `auth_token` and `processed_count` in success replies. The model returns the values these fields carry.
- HTTP Basic authentication parsing and request decoding are left out. A request body is either undecodable or a decoded value.
- Elasticsearch `match` queries are full-text searches. They are modelled as exact equality of the field. Index refresh timing and concurrent requests are not modelled.
- FlockApi.Server.Submit: the name of the daily index (`flock-YYYY-MM-DD` from the server clock) and the `osquery` document type are not modelled. The archive is one sequence across all days.
- FlockApi.IntOf: JSON numbers with a fraction are not modelled, so the truncation `int()` applies to floats is absent. Surrounding whitespace, underscores between digits and non-ASCII digits in a `unixTime` string are rejected here, though Python's `int()` accepts them.
- UtcTime.Render: years below 1000 are rendered with four zero-padded digits. Whether the platform `strftime` pads `%Y` is not modelled.
- Keybase.Format: requires a catalog kind. For any other kind the source raises a `KeyError`, which the model does not represent.
- Keybase.Format: details are modelled as text. The source accepts any value as details and renders it with `str()`, so for other values (a dict and the string of its `repr`, say) the message no longer determines the details. `FormatInjective` is about text details only. The same holds for the `details` of a queued record.
- Keybase.Lookup: the settings record is either undecodable or a map from kinds to booleans. A record that decodes to another JSON value, or that stores non-boolean values, is not modelled. Neither is having more than one "keybase_notifications" record, in which case the source reads the first.
- Keybase.KeybaseNotifications.Add: `created_at` is the `now` parameter. The clock is not modelled.
- Token generation (`secrets.token_hex(16)`) is a parameter of the registration operations. Token length and randomness are not modelled.
- The gateway's `error_msg` texts are not modelled. Its replies carry the kind of refusal only.
- GatewayTokens.Tokens: file reads and writes cannot fail here. The path is fixed, and the JSON encoding of the file is not modelled.
