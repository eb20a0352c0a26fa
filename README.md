# routed-anecdotes: the anecdote store and the create form

The application is a single-page React app that lists short "anecdotes". The
root component `App` keeps two pieces of state. One is an ordered table of
records `{content, author, info, votes, id}`, seeded with ids `"1"` and `"2"`.
The other is a notification line. `App` offers three operations on the table:

- `addNew` stamps a random id onto a submitted record and appends it.
- `anecdoteById` finds the first record with a given id.
- `vote` copies that record with one more vote and puts the copy in place of
  every record carrying the id.

The `CreateNew` form holds three text fields and a `submitted` flag. On
submit it calls `addNew` with a record of zero votes, sets the flag, and sets
the message `a new anecdote <content> created`.

This project models that state and those operations in Dafny:

- `numerals.dfy` (module `Numerals`): the decimal text of a whole number. This
  is the form of every id `addNew` draws. It comes with its inverse `Value`,
  and round trips both ways.
- `anecdotes.dfy` (module `Anecdotes`): the record type, the seed table, and
  the pure parts of the operations: `FindIndex`, `FindById`, `Stamp`,
  `Appended`, `Replace` (the `map` of `vote`), `Bump` and `Voted`.
- `anecdote_laws.dfy` (module `AnecdoteLaws`): what the operations guarantee.
  This covers lookups after an append and after a vote, and when ids stay
  distinct and when they do not. It also shows the total vote count rising by
  exactly one, and a vote overwriting a duplicate record.
- `store.dfy` (module `AppState`): class `Store`, holding the table and the
  notification, with methods `AddNew`, `Vote` and `SetNotification`. Each
  method states its new state in terms of the pure functions.
- `create_form.dfy` (module `CreateNew`): class `CreateForm`, its input
  setters and `HandleSubmit`, plus the confirmation `Message`.

Inputs that are not logic become parameters:

- `Math.random()` scaled by 10000 and rounded by `toFixed(0)` becomes a
  parameter `n: nat` with `n <= 10000`. The id is `Decimal(n)`.
- The form's `props` (`addNew` and `setMessage`) become the `Store` that
  `HandleSubmit` receives.

Three points of the code's behaviour that a reader might not expect:

- `vote` on an absent id is not a silent no-op. Line 148 reads `votes` of
  `undefined` and throws before the table is replaced. `Store.Vote` reports
  this as `thrown`, and `Voted` as `None`; the state is left unchanged.
- Distinct ids are not an invariant of the table. `addNew` consults no
  existing id. Distinctness is proved only under a freshness condition, and
  the collision cases are proved to break it.
- `addNew` itself neither sets `votes` to 0 nor sets the notification. The
  form does both, so the model puts them in `HandleSubmit`.

## Model

| member | source | states |
|---|---|---|
| Numerals.Decimal | src/App.js:137 | the id text of a draw: at least one character, every character a digit, and a leading zero only for 0 itself |
| Numerals.ValueOfDecimal | src/App.js:137 | reading the printed id back as a number gives the draw |
| Numerals.DecimalOfValue | src/App.js:137 | every canonical digit string is the printout of the number it denotes, so ids and draws correspond one to one |
| Numerals.DecimalInjective | src/App.js:137 | two different draws never print as the same id |
| Numerals.DecimalLength | src/App.js:137 | a number below 10^k prints with at most k digits |
| Numerals.IdLength | src/App.js:137 | every id drawn from 0 to 10000 has one to five digits |
| Anecdotes.Seed | src/App.js:117-132 | the initial table has two records, ids "1" and "2", both with no votes |
| Anecdotes.FindIndex | src/App.js:141 | absent exactly when no record carries the id; otherwise the position of a record carrying it with none before it |
| Anecdotes.FindById | src/App.js:141 | `find`: absent exactly when no record has the id; otherwise a record of the table with that id, with no earlier record having it |
| Anecdotes.Stamp | src/App.js:137 | the appended record keeps content, author, info and votes as submitted; its id is a canonical one-to-five-digit string whose value is the draw |
| Anecdotes.Appended | src/App.js:136-139 | `concat`: one record longer, every earlier record unchanged and in place, the stamped record last |
| Anecdotes.Replace | src/App.js:151 | `map`: same length; each record carrying the id becomes the copy, every other record is unchanged |
| Anecdotes.Bump | src/App.js:146-149 | the vote copy has exactly one more vote, and content, author, info and id unchanged |
| Anecdotes.Voted | src/App.js:143-152 | fails exactly when no record has the id; else same length, records with other ids unchanged, each record with the id equal to the first match plus one vote |
| AnecdoteLaws.AppendedLookup | src/App.js:136-141 | after an append, an id already present finds what it found before, the drawn id (if new) finds the stamped record, any other id finds nothing |
| AnecdoteLaws.AppendedKeepsUnique | src/App.js:136-138 | with a draw whose id is not present, distinct ids stay distinct |
| AnecdoteLaws.AppendedCollision | src/App.js:136-141 | with a draw whose id is present, ids are no longer distinct and a lookup of that id still finds the older record, at the same position as before |
| AnecdoteLaws.SeedUnique | src/App.js:117-132 | the seed ids are distinct |
| AnecdoteLaws.SeedCollision | src/App.js:117-139 | drawing 1 or 2 makes the new record collide with a seed record |
| AnecdoteLaws.AppendedAllOrder | src/App.js:136-139 | a run of appends adds one record per call, keeps the earlier records, and puts the new ones in call order |
| AnecdoteLaws.AppendedAllUnique | src/App.js:136-139 | ids stay distinct through a run of appends whose draws are distinct and not already present |
| AnecdoteLaws.AppendedAllRepeatedDraw | src/App.js:136-139 | two equal draws in a run always leave two records with one id |
| AnecdoteLaws.AppendedAllStaleDraw | src/App.js:136-139 | a draw that prints as an existing id always leaves two records with one id |
| AnecdoteLaws.VotedUnique | src/App.js:143-151 | with distinct ids a vote changes exactly one record, the first match, by one vote |
| AnecdoteLaws.VotedKeepsIds | src/App.js:146-151 | a vote leaves the sequence of ids as it was, so distinct ids stay distinct |
| AnecdoteLaws.TotalVotesUpdate | src/App.js:151 | replacing one record changes the sum of votes by the difference of the two counts |
| AnecdoteLaws.VotedTotal | src/App.js:143-151 | with distinct ids a vote adds exactly one to the sum of all votes |
| AnecdoteLaws.VotedLookup | src/App.js:141-151 | with distinct ids, after a vote the voted id finds its record with one more vote, and every other id finds what it found before |
| AnecdoteLaws.VotedOverwritesDuplicate | src/App.js:146-151 | with a shared id, a vote turns the later record into a copy of the first one, and its vote count can fall |
| AnecdoteLaws.VoteOnSeed | src/App.js:117-151 | voting for "1" on the seed table gives it one vote and leaves "2" at none |
| AnecdoteLaws.MissOnSeed | src/App.js:117-148 | looking up "999" on the seed table finds nothing, and voting for it fails |
| AppState.Store.constructor | src/App.js:117-134 | the page starts with the seed table and no notification |
| AppState.Store.AddNew | src/App.js:136-139 | the new table is the old one with the stamped record appended; the notification is untouched |
| AppState.Store.Vote | src/App.js:143-152 | throws exactly when the id is absent, leaving the table unchanged; otherwise the new table is what `Voted` gives |
| AppState.Store.SetNotification | src/App.js:171 | the notification becomes the given message and the table is untouched |
| CreateNew.Message | src/App.js:89 | the message is "a new anecdote ", then the content, then " created" |
| CreateNew.MessageInjective | src/App.js:89 | different contents give different messages |
| CreateNew.CreateForm.constructor | src/App.js:75-78 | the form starts with empty fields and not submitted |
| CreateNew.CreateForm.SetContent | src/App.js:98 | the content field becomes the typed text |
| CreateNew.CreateForm.SetAuthor | src/App.js:102 | the author field becomes the typed text |
| CreateNew.CreateForm.SetInfo | src/App.js:106 | the info field becomes the typed text |
| CreateNew.CreateForm.HandleSubmit | src/App.js:80-90 | the store gains one record at the end, made of the three fields with zero votes and the drawn id; the form is submitted; the notification is the confirmation message; the fields stay as they were |

## Left out

- Rendering of `Anecdote`, `AnecdoteList`, `About`, `Footer` and the navigation bar (src/App.js:32-72, 158-182): presentation only.
- `Menu` (src/App.js:7-29): never used; its one use is commented out.
- Route matching, `Link` and `Redirect` (src/App.js:109, 162-179): this is the react-router library, which is not part of this model. The detail route dereferences `anecdoteById`'s result without checking it. The model gives the lookup an explicit absent result (`None`) and does not model the view.
- `console.log` in the detail route (src/App.js:176): output only.
- `Math.random()` and floating-point rounding (src/App.js:137): the draw is the parameter `n`, 0 to 10000 inclusive, which are the values `toFixed(0)` of the scaled draw can produce.
- `e.preventDefault()` (src/App.js:81): browser event handling.
- React's `useState` scheduling and re-rendering: every update is applied at once and in order. A batched sequence of updates that reads a stale `anecdotes` closure is not modelled.
- AppState.Store.AddNew: the source writes `id` into the caller's object in place (src/App.js:137). The model stamps a copy. The only caller passes a fresh object literal, so no other reference sees the change; aliasing is not modelled.
- `vote` is never called from any rendered control; it is modelled as an operation of the store regardless.
- Anecdotes.Bump: vote counts are unbounded naturals; JavaScript numbers add 1 exactly only below 2^53, and that precision limit is not modelled, so `Bump` and `VotedTotal` promise one more vote at every count. Strings are sequences of Unicode scalar values here, while the source's strings are UTF-16 code units.
- The notification line shows `''` when there is no notification (src/App.js:168). This is rendering; the model keeps the notification as `None` or `Some(message)`.
