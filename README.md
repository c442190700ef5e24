# User registry: a verified model

The server in `main.go` keeps an in-memory user registry: an ordered list of
user records (identifier, username, first name, last name, e-mail, creation
time) and an identifier counter that starts at 1. Its request handlers create a
record, find one by identifier, update one with a patch (an empty field means
"no change"), and delete one. Usernames and e-mails must be unique, e-mails must
have the shape `letters-and-digits@letters-and-digits(.letters-and-digits)+`, and
a refused request changes nothing.

This project models that registry in Dafny and proves what it guarantees:

- `email.dfy` (module `Email`): the fixed e-mail pattern as a hand-written
  automaton (`IsEmailValid`), proved to accept exactly the addresses described
  character by character (`WellFormed`), and to accept exactly the strings built
  as label `@` label (`.` label)+ (`AcceptsPattern` and its converse
  `ValidHasPattern`).
- `users.dfy` (module `Users`): the `User` record, the outcomes, and the pure
  rules behind each operation: the lookup by identifier (`IndexOf`), the
  conflict scan in list order (`FirstClash`), the order of the checks of a create
  (`CreateCheck`) and of an update (`UpdateCheck`), the field-by-field merge of
  a patch (`Merge`), the removal of one record (`RemoveAt`), and the registry
  invariant `Inv`. Every record is well formed and has an identifier in
  `[1, currentID)`. Identifiers increase in list order. No two records share a
  username or an e-mail. The lemmas show that each accepted operation keeps
  `Inv` and prove the other guarantees listed below.
- `registry.dfy` (module `UserRegistry`): the class `Registry` with the two
  pieces of process-wide state as fields (`users: seq<User>`, `currentID: int`)
  and one method per handler. Each method uses the source's loops and assignments
  and is proved to produce exactly the new state and outcome the rules in `Users`
  give. Each method also keeps `Valid()`: `Inv`, plus a ghost field `issued`
  holding every identifier ever handed out, deleted ones included, all below
  the counter. A create adds exactly the new identifier to `issued`, and that
  identifier exceeds every one issued before.

The handlers receive already-decoded input. Create takes a candidate `User` and
the creation timestamp as an opaque string. Update takes an `int` identifier and
a patch `User`. Delete takes an `int` identifier. Each returns
`Ok(...)` or `Err(e)` with `e` one of `MissingField`, `InvalidEmail`,
`DuplicateUsername`, `DuplicateEmail`, `NotFound`.

The two conflict loops of the source (one in create, one in update) are modelled
by one scan, `Registry.ScanConflicts`, whose per-record test (`Clash`) is chosen
by a `Probe`. The create probe compares the username, then the e-mail. The update
probe skips the record being updated and ignores empty patch fields. Every
comparison and every early exit is the source's.

## Model

| member | source | states |
|---|---|---|
| `Email.IsEmailValid` | main.go:31-34 | the definition: the automaton (`Step`, `Run`) reads the whole address from its start phase and must end in the phase inside a label after a dot; its meaning is stated by the two lemmas below |
| `Email.IsEmailValidIffWellFormed` | main.go:31-34 | the recognizer accepts an address exactly when it is one `@` between a non-empty run of letters and digits and a domain made only of letters, digits and dots that starts with a letter or digit, has at least one dot, and has every dot followed by a letter or digit (both directions) |
| `Email.AcceptsPattern` | main.go:32 | every string of the form label `@` label (`.` label)+ is accepted, for any number of dotted labels |
| `Email.ValidHasPattern` | main.go:32 | conversely, every accepted address splits as a label, `@`, a label and one or more dotted labels, and the parts are returned |
| `Email.AcceptedExamples` | main.go:32 | `a@b.c` and `a@b.c.d` are accepted |
| `Email.RejectedExamples` | main.go:32 | `abc`, `a@b`, `@b.c`, `a.b@c.d` and the empty string are rejected |
| `Users.IndexOf` | main.go:75-82 | the result is the position of the first record with the identifier, or -1 exactly when no record has it |
| `UserRegistry.Registry.FindUserByID` | main.go:75-82 | the indexed search loop returns that first position, or -1 exactly when no record has the identifier |
| `Users.Clash` | main.go:56-122 | the definition of one record's conflict: for a create the username is compared, then the e-mail (lines 57-64); for an update a record with the updated identifier is skipped and an empty patch field compares with nothing (lines 114-121) |
| `Users.FirstClash` | main.go:56-122 | the definition of the scan: records in list order, stopping at the first that has a conflict, as both range loops do (lines 56-65 and 113-122) |
| `Users.FirstClashIsFirst` | main.go:56-122 | for either scan, the create loop (lines 56-65) or the update loop (lines 113-122), the scan finds nothing exactly when no record conflicts, and otherwise reports the conflict of the first conflicting record in list order |
| `UserRegistry.Registry.ScanConflicts` | main.go:56-122 | the early-exit loop that models both range loops, the create one (lines 56-65) and the update one (lines 113-122), returns exactly the conflict of that first conflicting record, or none |
| `Users.CreateCheck` | main.go:47-65 | the definition of a create's checks in their order: missing field, then e-mail shape, then the conflict scan |
| `Users.Stamp` | main.go:66-68 | the stored record has the assigned identifier and creation time, passes the field checks exactly when the candidate did, and conflicts with any record in a create scan, either way round, exactly as the candidate does |
| `Users.CreateAcceptedIff` | main.go:47-65 | a create is accepted exactly when all four fields are non-empty, the e-mail is well formed, and no record has the same username or e-mail |
| `Users.CreateReportsFirstConflict` | main.go:56-65 | a refused create reports the first conflicting record's conflict, with the username checked before the e-mail |
| `Users.CreateKeepsInv` | main.go:66-70 | an accepted create keeps the invariant, and the new identifier is above every identifier in the list |
| `Users.CreatedAppearsOnce` | main.go:66-70 | after a create the stored record appears exactly once in the list, at the end |
| `Users.RepeatedCreateFails` | main.go:56-60 | sending the same create twice is refused the second time with DuplicateUsername |
| `Users.CreateWithTakenUsernameFails` | main.go:56-60 | a later create with a taken username is refused as a duplicate, with DuplicateUsername when no earlier record conflicts |
| `Users.CreateWithTakenEmailFails` | main.go:61-64 | a later create with a taken e-mail and a new username is refused as a duplicate, with DuplicateEmail when no earlier record conflicts |
| `UserRegistry.Registry.CreateUser` | main.go:37-73 | a refused create returns its error and changes neither the list nor the counter; an accepted one appends the candidate with identifier = old counter and the given time, increments the counter by one, leaves earlier records unchanged, and keeps the invariant; the new identifier is added to the issued set and exceeds every identifier issued before, those of deleted records included, so identifiers are never reused |
| `Users.UpdateCheck` | main.go:94-122 | the definition of an update's checks in their order: record found, then a non-empty e-mail's shape, then the scan against the other records |
| `Users.Merge` | main.go:124-135 | the definition of the merge: each non-empty patch field overwrites the record's; identifier and creation time are kept |
| `Users.UpdateAcceptedIff` | main.go:94-122 | an update is accepted exactly when the record exists, a non-empty e-mail is well formed, and no other record holds a non-empty patch username or e-mail |
| `Users.UpdateWithOwnValuesAccepted` | main.go:113-122 | resubmitting a record's own values is accepted: a record is never compared against itself |
| `Users.MergeEmptyPatch` | main.go:124-135 | an all-empty patch leaves the record identical |
| `Users.MergeIdempotent` | main.go:124-135 | applying a patch twice equals applying it once |
| `Users.UpdateKeepsInv` | main.go:113-135 | an accepted update keeps the invariant |
| `UserRegistry.Registry.UpdateUser` | main.go:84-138 | a refused update returns NotFound, InvalidEmail or the first conflict and changes nothing; an accepted one replaces only that record with the patch merged in (identifier and creation time kept), leaves the other records, the order, the counter and the issued set unchanged, and keeps the invariant |
| `Users.RemoveAt` | main.go:156 | the list loses exactly its i-th record: one shorter, records before i in place, records after i shifted down by one |
| `Users.DeleteKeepsInv` | main.go:150-156 | a delete keeps the invariant |
| `Users.DeletedIdIsGone` | main.go:150-156 | after a delete no record has that identifier, so a second delete finds nothing |
| `Users.DeleteKeepsOthers` | main.go:156 | a delete keeps exactly the records with a different identifier |
| `UserRegistry.Registry.DeleteUser` | main.go:140-158 | an unknown identifier gives NotFound and no change; otherwise exactly that record is removed, the others keep their order, the counter is not decremented, the issued set still holds the deleted identifier, and the invariant is kept |
| `UserRegistry.Registry.constructor` | main.go:23-24 | the registry starts empty with the counter at 1 and nothing issued, satisfying the invariant |
| `UserRegistry.Walkthrough` | main.go:37-73 | on a fresh registry: create gives identifier 1, the same create again gives DuplicateUsername, delete succeeds, the same delete again gives NotFound, and the create once more gives identifier 2 |

## Left out

- HTTP routing, verb checks, status codes and error texts (main.go:160-195), the listing handler's JSON output (main.go:26-29), and server start-up and logging. These are I/O plumbing. Listing is reading the `users` field.
- JSON decoding of request bodies and the resulting "Invalid input" errors (main.go:41-45, 100-105). The handlers take the decoded `User`; absent JSON fields arrive as `""`, as Go zero-values them.
- Parsing the identifier from the URL path with `strings.TrimPrefix` and `strconv.Atoi` (main.go:87-92, 143-148). These are library calls; the identifier is an `int` parameter.
- `time.Now().Format(time.RFC3339)` (main.go:68). The clock is non-deterministic, so the timestamp is a parameter, an opaque string.
- The regular-expression engine. Only the one fixed pattern of main.go:32 is modelled, as an automaton over characters. A Go string is bytes, but the pattern's ASCII character class rejects every non-ASCII character either way.
- Concurrency. The source's globals are unguarded, and races between requests are not modelled; every operation is one atomic step.
- UserRegistry.Registry.CreateUser: does not model wrap-around of Go's 64-bit `int` counter at 2^63 - 1, because identifiers are unbounded integers here.
- UserRegistry.Registry.UpdateUser: the source writes the merged fields through the `*User` pointer that `findUserByID` returns into the slice. The model replaces the list element at that index instead. Nothing else holds that pointer, so the resulting state is the same.
