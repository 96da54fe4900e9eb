# tmail: the address and inbox store

A model of the server side of a disposable temporary-mail service
(`server/server.js`). The server hands out addresses of the form
`<token><timestamp>@tempmail.dev`, keeps two in-memory Maps — `emailStorage`
(address → `{email, createdAt, expiresAt}`) and `emailInboxes` (address → list of
messages) — accepts mail for known addresses through a webhook, lists an inbox,
opens a message (flagging it read), deletes a message, and once a minute sweeps away
every address older than ten minutes.

Files:

- `address.dfy`, module `Address`: `generateRandomEmail` as pure functions, with
  JavaScript's `String.prototype.substring` and the decimal rendering of `Date.now()`.
- `store.dfy`, module `Store`: the two Maps and their shared iteration order as one
  value (`Tables`), what each handler does to it (`Created`, `Swept`, `Received`,
  `Opened`, `Deleted`, `InboxOf`), the invariant the handlers keep (`WellFormed`: both
  Maps have the same keys, each record sits under its own address and expires ten
  minutes after creation, message ids are unique), and the lemmas about them.
- `server.dfy`, module `Server`: class `MailStore`, whose fields are the two Maps and
  their order, with one method per handler. The methods loop and update the fields in
  place as the handlers do, and each is proved to leave exactly the state and give
  exactly the response that the `Store` function for that handler prescribes.

Nondeterminism is a parameter: `Date.now()` is `now: nat` (one reading per request, see "## Left out";
so `expiresAt = createdAt + 600000` holds exactly), `Math.random().toString(36)` is
`randomText`, and `uuidv4()` is `id`, required not to be in use already.

JavaScript Maps iterate in insertion order, and the get-email and delete-email
handlers take the first match in that order. The model keeps the order as a sequence
`order`: a new key goes at the end, `Map.set` on an existing key keeps its place, and
`Map.delete` removes it. Generate sets both Maps and the sweep deletes from both, so
their keys stay the same; the webhook and delete-email call `set` on `emailInboxes`
alone, but only on a key it already holds, which keeps that key's place. So one order
serves both Maps.

Behaviour worth noting:

- Generating an address that already exists is not a no-op: `Map.set` replaces the
  record and resets the inbox to empty (`Created`, `CreateOverwrites`).
- The inbox lookup does not refuse expired addresses: it tests only presence in
  `emailStorage`, so an address past `expiresAt` is served until the next sweep
  (`InboxOf`, `ExpiredStillServed`).
- The webhook does not reject payloads with missing fields: it checks only that `to`
  is a known address and stores whatever `from`, `subject` and `body` it is given.
- `Date.now().toString().substring(-4)` keeps the whole timestamp: the negative start
  clamps to 0 (`GenerateAddress`).

## Model

| member | source | states |
|---|---|---|
| Address.JsSubstring | server/server.js:21-22 | `substring(start, end)`: within-range indices give that slice, swapped indices give the same slice, an in-range start with an end at or past the length gives the rest of the string from the start, a start at or below 0 with an end at or past the length gives the whole string; never longer than the input and made only of its characters |
| Address.Decimal | server/server.js:22 | the rendering of a timestamp is non-empty, all decimal digits, and has no leading zero unless the number is 0 |
| Address.DecimalRoundTrip | server/server.js:22 | reading the digits back gives the timestamp again |
| Address.DecimalInjective | server/server.js:22 | distinct timestamps render differently |
| Address.Token | server/server.js:21 | the random part is at most 10 characters, exactly characters 2..11 when the base-36 text has at least 12 characters, everything from character 2 on when it has between 2 and 12, empty when it has at most 2 characters, and uses only characters of that text |
| Address.GenerateAddress | server/server.js:19-24 | the address is the token, then the full decimal timestamp, then `@tempmail.dev`; it ends with that suffix, its local part is non-empty, and it holds no `@` before the suffix when the random text has none |
| Address.AddressDeterminesInstant | server/server.js:20-24 | two addresses with tokens of equal length are equal only if tokens and timestamps are |
| Store.EmptyWellFormed | server/server.js:13-14 | the empty Maps satisfy the store invariant |
| Store.Created | server/server.js:45-54 | the generate handler's effect on both Maps and their order; its properties are stated by `CreateOverwrites` |
| Store.CreateOverwrites | server/server.js:45-54 | generate stores `Record(address, now, now + 600000)` and an empty inbox, replacing any existing entry, keeps the address's place in Map order (appends a new one), leaves every other address's record and inbox unchanged, and keeps the invariant |
| Store.Expired | server/server.js:32 | the sweep's test `now - createdAt > 600000`; pinned at its boundary by `SweepSparesExactlyTenMinutes` |
| Store.Swept | server/server.js:27-37 | the sweep's effect on both Maps and their order; its properties are stated by `SweepRemovesExactlyExpired` and `SweepKeepsOrder` |
| Store.KeepLive | server/server.js:31-36 | the keys a sweep keeps are exactly the input keys that are not expired, and they form a subsequence of the input keys (`Subsequence`) |
| Store.SubsequenceKeepsOrder | server/server.js:31-36 | every element of a subsequence occurs in the original, and any two of its elements occur there in the same order |
| Store.KeepLiveNoDup | server/server.js:31-36 | the kept order lists each key once when the input order did |
| Store.SweepRemovesExactlyExpired | server/server.js:27-37 | a sweep removes from both Maps and the order exactly the addresses with `now - createdAt > 600000`; every other address keeps its record and its inbox; the invariant is kept |
| Store.SweptAddressIsGone | server/server.js:27-37 | after a sweep an expired address's inbox is not found and webhook mail to it is refused without change |
| Store.SweepKeepsOrder | server/server.js:31-36 | the addresses a sweep keeps appear in the new Map order in the same relative order as before |
| Store.SweepSparesExactlyTenMinutes | server/server.js:32 | the comparison is strict: an address exactly 600000 ms old survives |
| Store.InboxOf | server/server.js:64-79 | the inbox lookup succeeds exactly when the address is in `emailStorage` and then returns the stored list (the empty list if no inbox is stored) |
| Store.ExpiredStillServed | server/server.js:67 | an address whose `expiresAt` has passed is still listed, and still accepts webhook mail, until a sweep removes it |
| Store.Stamp | server/server.js:91 | an absent or zero supplied timestamp is replaced by the arrival time; any other is kept |
| Store.NewMessage | server/server.js:86-93 | the new message carries the fresh id and the payload's sender, subject and body, is unread, and is stamped as `Stamp` says |
| Store.Received | server/server.js:82-102 | the webhook's effect and response; its properties are stated by `ReceiveAppends` |
| Store.ReceiveAppends | server/server.js:82-102 | mail to a known address appends exactly that message at the end of that inbox, other inboxes, the records and the order unchanged, and keeps the invariant; mail to an unknown address is not found and changes nothing |
| Store.FindIndex | server/server.js:111 | `findIndex` on ids: -1 exactly when no message has the id, otherwise the first index that has it |
| Store.Locate | server/server.js:110-111 | the search gives the first address in Map order whose inbox holds the id together with the first index there, and finds nothing exactly when no inbox from the start slot on holds the id |
| Store.LocateExact | server/server.js:110-111 | in well-formed tables the search finds something exactly when the id is in use, and what it finds is the one message with that id |
| Store.LocateSeesOnlyIds | server/server.js:111 | the search depends on message ids only, not on the read flag or any other field |
| Store.Opened | server/server.js:106-125 | get-email's effect and response; its properties are stated by `OpenMarksRead` and `OpenIdempotent` |
| Store.OpenMarksRead | server/server.js:106-125 | get-email returns the message with that id with `read = true` and sets that flag in its inbox, changing no other field, message, inbox, record or the order, and keeps the invariant; an unknown id is not found and changes nothing |
| Store.OpenIdempotent | server/server.js:110-118 | opening the same id twice gives the same response and state as opening it once |
| Store.RemoveAt | server/server.js:134 | `splice(i, 1)` shortens the list by one, keeps the messages before `i` in place and shifts those after it down by one |
| Store.RemoveKeepsUnique | server/server.js:131-135 | splicing a message out keeps ids unique and its id is then no longer in use |
| Store.Deleted | server/server.js:128-147 | delete-email's effect and response; its properties are stated by `DeleteRemovesOne` |
| Store.DeleteRemovesOne | server/server.js:128-147 | delete-email removes exactly the message with that id at its first index from the inbox holding it, the rest of that inbox keeping its order; other inboxes, the records and the order are untouched; the id is no longer in use; the invariant is kept; an unknown id is not found and changes nothing |
| Store.CreateThenReceive | server/server.js:45-54 | mail posted to a freshly generated address is the only message of its inbox |
| Store.OpenOnlyMessage | server/server.js:106-118 | opening the only message of an inbox returns it flagged read and the inbox then holds it flagged read |
| Store.EndToEnd | server/server.js:45-125 | generate, post one message, list (one unread message with the posted subject), open (returned with `read = true`), list again (flag kept) |
| Server.MailStore.constructor | server/server.js:13-14 | the server starts with both Maps empty and the invariant holding |
| Server.MailStore.Generate | server/server.js:45-61 | returns the generated address and `now + 600000`, and leaves the fields as `Created` says, keeping the invariant |
| Server.MailStore.Inbox | server/server.js:64-79 | answers as `InboxOf`, reading no clock |
| Server.MailStore.Receive | server/server.js:82-103 | answers and updates the fields as `Received` says with the message `NewMessage` builds, keeping the invariant |
| Server.MailStore.Open | server/server.js:106-125 | the scan over inboxes in Map order answers and updates the fields as `Opened` says, keeping the invariant |
| Server.MailStore.Delete | server/server.js:128-147 | the scan over inboxes in Map order answers and updates the fields as `Deleted` says, keeping the invariant |
| Server.MailStore.Sweep | server/server.js:27-37 | the loop over `emailStorage` leaves the fields as `Swept` says, keeping the invariant |

## Left out

- `script.js`, the browser client: DOM updates, `fetch` calls, timers, clipboard and
  QR-code widgets, and its local fallback address. It holds no store logic.
- Express and HTTP: CORS, JSON body parsing, routing, status codes and JSON envelopes.
  A response is `Ok(value)` or `NotFound`; `Generate` returns the address and its expiry.
- `setInterval(cleanupExpiredEmails, 60000)` and `app.listen`: scheduling is not
  modelled; `Sweep(now)` is one run of the sweep.
- `Math.random`, `Date.now` and `uuidv4` are foreign and nondeterministic; their results
  are parameters.
- Server.MailStore.Generate: a generate request reads `Date.now()` three times — once
  inside `generateRandomEmail` for the address, then once each for `createdAt` and
  `expiresAt`. The model uses one reading `now` for all three, so the instant encoded
  in the address always equals `createdAt` and `expiresAt = createdAt + 600000` holds
  exactly. The source guarantees neither: the readings may differ by a few milliseconds.
- Server.MailStore.Receive: requires that `id` is not in use, standing for
  uuidv4's practical uniqueness; the source does not check it.
- Store.Stamp: the payload's timestamp is modelled as an optional integer. Other
  JSON values (strings, `false`, `""`, `NaN`) and absent `from`, `subject`, `body` or
  `to` fields (`undefined`) are not represented.
- Numbers are unbounded integers; `Date.now()` values are far below 2^53, so no
  floating-point rounding or exponent notation in `toString()` arises.
- Message identity: the source returns the same message object it flags read; messages
  are values here, so the returned message equals the flagged one but is not shared.
- Server.MailStore.Sweep: JavaScript removes each expired key while iterating; the
  method deletes from local copies of the Maps and stores them, with the kept order,
  when the loop ends. Only the final state is modelled, as nothing observes the
  state mid-sweep.
- The health endpoint: it carries no logic.
