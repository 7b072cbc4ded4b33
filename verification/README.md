# GoGuestBook entry lifecycle, modelled in Dafny

GoGuestBook is a small guestbook service. Visitors submit entries (name,
email, message) together with a shared anti-spam code. The administrator
receives a moderation link by mail and approves, rejects or comments on the
entry. Approved entries are listed publicly. This project models the pure
decision logic of `main.go` and proves properties of it:

- **Entry validation** (`validation.dfy`, `email.dfy`). It checks byte-length
  bounds on name, email and message, then the email pattern
  `^[a-zA-Z0-9._%+-]+@[a-zA-Z0-9.-]+\.[a-zA-Z]{2,}$`.
  - The model has no regular-expression engine. It decides the pattern with a
    procedure of its own (`Email.IsValidEmail`): one forward run over the
    local part and one backward run over the top-level domain.
  - That procedure is proved equal to two independent readings of the
    pattern. `MatchesPattern` reads the pattern literally.
    `WellFormedAddress` is the description in words: exactly one `@`, and a
    domain whose last `.` has at least one byte before it and at least two
    ASCII letters after it.
- **Submission gate** (`Guestbook.CreateEntry`). The checks run in the
  source's order: anti-spam code, validation, address resolution
  (X-Forwarded-For, else the peer host), post limit, insertion. A successful
  submission sends one admin notification carrying the moderation link.
- **Moderation** (`Guestbook.ApproveEntry`, `RejectEntry`, `AddComment`,
  `GetEntry`, `Store.SelectApproved`). These work over an abstract store, a
  map from entry id to entry. Approve, reject, comment and submission are
  pure functions from the store to a `Step`: the new store, the reply and the
  mails to send. `GetEntry` returns the entry it finds, if any. The listing
  `Store.SelectApproved` is a method that returns the listed rows.
- **Lifecycle properties** (`lifecycle.dfy`). These relate several requests:
  the post limit across two submissions, listing after approval or
  rejection, and at most one author notification. `example.dfy` walks one
  sample entry through submission and approval.

Strings are byte sequences (`Bytes.Bytes`), because Go's `len` counts bytes.
Go's matcher reads runes, but every class of the email pattern is ASCII. So a
non-ASCII byte, or malformed UTF-8, never matches, and the byte-level
decision is exact. In Go, `$` without the multi-line flag matches only at the
end of the text.

The clock is an integer `now` parameter, and a new row is stamped with it.
The id generator is an oracle parameter `newId`. The outcome of
`net.SplitHostPort` on the peer address is a parameter `remoteHost`, with
`None` meaning the split failed.

Where the source's comments and its code differ, the model follows the
code. Some behaviours of the code are easy to miss:
- Approve and comment read the row before updating it. An unknown id
  therefore fails as a generic server error (500), not as "not found". Only
  reject answers 404 for an unknown id.
- Approve and reject overwrite any prior state (-1, 0 or 1). Approval mails
  the author only when the prior state was exactly pending (0).
- Setting an empty comment leaves an entry in its "no comment yet" state. The
  next comment then notifies the author again (`EmptyCommentNotifiesAgain`).
  So the comment at main.go:421 ("Don't send mail multiple times for the same
  post") does not hold when the first comment is empty.

## Model

| member | source | states |
|---|---|---|
| Email.LocalRun | main.go:284 | the local part `[a-zA-Z0-9._%+-]+` ends exactly where the longest run of local-class bytes ends: every byte before the result is in the class, and the byte at the result is not |
| Email.TrailingLetters | main.go:284 | the top-level domain `[a-zA-Z]{2,}$` is the longest suffix of ASCII letters: every byte in the suffix is a letter, and the byte just before it is not |
| Email.SplitIsForced | main.go:284 | any way of matching the pattern puts the `@` where the local run stops and the `.` just before the trailing letter run, so a match is unique |
| Email.IsValidEmailDecidesPattern | main.go:282-287 | the decision procedure accepts an address if and only if the anchored pattern matches it |
| Email.MatchesPatternIffWellFormed | main.go:284 | the pattern matches if and only if there is exactly one `@`, a non-empty local part from the local class, and a domain from `[A-Za-z0-9.-]` whose last `.` has at least one byte before it and at least two ASCII letters after it |
| Email.IsValidEmailIffWellFormed | main.go:282-287 | the email check accepts exactly the addresses described in words above |
| Validation.ValidateEntry | main.go:262-279 | validation succeeds if and only if name is 3-100 bytes, email 6-100 bytes, message 10-2000 bytes and the email is well formed; otherwise it reports the first failed check, in the source's order |
| Store.LatestSubmission | main.go:220 | the newest `created_at` among the rows from an address: it belongs to such a row and no such row is newer; it is absent exactly when the address has never posted |
| Store.RateLimited | main.go:219-231 | judging only the newest row from an address gives the same answer as asking whether any row from it is younger than the wait; an address that never posted is never limited |
| Store.SelectApproved | main.go:173-183 | the listing holds each approved row exactly once, projected to name, message, approved, comment and created_at; it is newest first; no listed entry has an id, email or ip |
| Guestbook.ModerationLink | main.go:248-249 | the admin's link is the base URL, then `?GgbEntryID=`, then the entry id, with nothing else |
| Guestbook.LinkedId | main.go:248-249 | the inverse of the link format: reading an id back from a link succeeds only on a link built from that id |
| Guestbook.LinkRoundTrip | main.go:248-249 | every link built for an id reads back as that id, so the link identifies the entry |
| Guestbook.ClientAddress | main.go:211-218 | the address is the X-Forwarded-For header when it is not empty, else the host part of the peer address; it is missing exactly when the header is empty and the peer address does not split |
| Guestbook.CreateEntry | main.go:186-259 | a wrong code fails with "code" whatever the fields; otherwise invalid fields fail with "validation"; otherwise a row from the same address younger than the wait fails with "postlimit"; every failure leaves the store unchanged and sends no mail; success happens exactly when the code is right, the fields are acceptable, the address resolves and has no row younger than the wait, and the id is fresh; success adds exactly one row under the fresh id, with the resolved address, approved 0 and an empty comment, leaves all other rows unchanged, and mails the admin one link that carries the new id |
| Guestbook.GetEntry | main.go:301-316 | an entry is found exactly when its id is stored; the result is the stored entry with the address hidden |
| Guestbook.ApproveEntry | main.go:319-356 | an unknown id fails as a server error with no change and no mail; otherwise only that entry's `approved` becomes 1, whatever it was, and the author is mailed if and only if the entry was pending and has an address |
| Guestbook.RejectEntry | main.go:359-377 | never sends mail; an unknown id answers not-found with the store unchanged; otherwise only that entry's `approved` becomes -1, whatever it was |
| Guestbook.AddComment | main.go:380-429 | an unknown id fails as a server error before the body is looked at; an undecodable body fails with no change; otherwise only that entry's comment is replaced, and the author is mailed if and only if the entry had no comment and has an address |
| Lifecycle.SecondSubmissionWithinWaitIsLimited | main.go:219-227 | when a valid submission from an address that posted nothing within the wait is stored, a second valid one from the same address sooner than the wait after it fails with "postlimit" |
| Lifecycle.SubmissionAfterWaitIsAccepted | main.go:219-241 | when a valid submission is stored, a second valid one from the same address under another fresh id is stored too once the wait has passed both since it and since every earlier row from that address |
| Lifecycle.ModerationLinkFindsNewEntry | main.go:239-251 | the id in the admin's link finds the new entry: pending, no comment, the submitted fields, address hidden |
| Lifecycle.SubmissionIsNotListed | main.go:241 | a successful submission leaves the set of listed entries as it was: a new entry is not public until approved |
| Lifecycle.ModerationDecidesListing | main.go:331-362 | approving adds the entry to the listed set and rejecting removes it, whatever its prior state; no other entry's listing changes |
| Lifecycle.ApprovalNotifiesOnce | main.go:346-354 | approving twice sends at most one author mail, and the second approval changes nothing and sends nothing |
| Lifecycle.DecisionsOverwriteSilently | main.go:331-362 | reject then approve leaves the entry approved, and approve then reject leaves it rejected; neither second step sends mail |
| Lifecycle.CommentNotifiesOnce | main.go:418-426 | after a non-empty comment, a further comment sends no mail whatever its text; the first sends at most one |
| Lifecycle.EmptyCommentNotifiesAgain | main.go:402-426 | setting an empty comment on an uncommented entry mails the author, and so does the next comment |
| Example.SampleEntryIsAcceptable | main.go:262-287 | the entry "Alice Smith" / "alice@example.com" / "Hello there, this is my message." passes validation |
| Example.SampleLifecycle | main.go:186-356 | that entry, submitted from a fresh address, is stored under the peer host, is not listed while pending, and once approved is listed and its author gets exactly one approval mail |

## Left out

- HTTP routing, request decoding, status codes and static files (main.go:101-121). Handlers return a `Reply`, and the doc comment of `Guestbook.Failure` records which status each failure maps to. A submission body that does not decode (400) is not modelled: `CreateEntry` receives the decoded `Submission`.
- SQLite and the schema (main.go:77-98). The table is a map keyed by id. Storage errors are not modelled, except a key clash on insert and a missing row. After a successful read, the "no row updated" branches of approve and comment cannot happen in a sequential model.
- SMTP transport and message headers (main.go:152-170). A notification is an emitted `Mail` (recipient, template, URL). Send failures are only logged, so they cannot affect the reply.
- Configuration loading and duration parsing (main.go:125-149). `Config` is given.
- Id generation with crypto/rand and SHA-256 (main.go:290-298). The id is the parameter `newId`. A random-source failure (500) is not modelled.
- The wall clock, and SQLite's `CURRENT_TIMESTAMP` resolution and time zone. Time is an integer, and the wait test is `now - created_at < wait` on unbounded integers, with no 64-bit duration overflow.
- `net.SplitHostPort`: its outcome on the peer address is the parameter `remoteHost`, not a model of the parser.
- Concurrent approve or comment requests racing on one entry. The model is sequential.
- Logging lines.
