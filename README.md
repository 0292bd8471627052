# Gmail mailbox, modelled in Dafny

A model of the `Gmail` mailbox of the `com.driver` package: an inbox of fixed
capacity kept in arrival order (oldest first), an unbounded trash, and a
counter kept beside the inbox that the mailbox reports as its inbox size.

- Receiving a mail appends it to the inbox. When the inbox is full, the oldest
  inbox mail (position 0) is first moved to the end of the trash.
- Deleting by message moves every inbox mail with that message text to the
  trash, in inbox order, and keeps the order of the rest.
- Queries: the latest and oldest message (absent on an empty inbox), the
  number of inbox mails dated in an inclusive date range, the inbox size,
  the trash size and the capacity.
- Emptying the trash discards every trashed mail.

Files: `wrappers.dfy` holds the `Option` type that stands for Java's `null`;
`gmail.dfy` holds module `Driver`: the `Mail` datatype, specification
functions over mail lists (`Remaining`, `Removed`, `CountInRange`) with
their lemmas, and the class `Gmail`, whose methods change `inbox`, `trash`
and `count` in place and are proved against those functions.

`Valid()` is the class invariant: the counter equals the inbox length, and a
non-empty inbox holds at most `capacity` mails. The source states two more
facts as caller guarantees: mails arrive in non-decreasing date order, and
messages in the inbox are distinct. The model does not make them invariants.
It proves instead that each mutator (`ReceiveMail`, `DeleteMail` and the eviction step `MoveOldestMailToTrash`) preserves them when the caller keeps
its side (`Sorted`, `DistinctMessages`).

Dates are integer timestamps. Only their total order is used, which is all
`Date.compareTo` supplies. The date range counts both bounds, as the source's
`>= 0` / `<= 0` comparisons do.

## Model

| member | source | states |
|---|---|---|
| Driver.Gmail.constructor | src/main/java/com/driver/Gmail.java:16-22 | a new mailbox has an empty inbox and trash, counter 0, the given capacity and account id, and satisfies the invariant |
| Driver.Gmail.ReceiveMail | src/main/java/com/driver/Gmail.java:24-36 | keeps counter = inbox length and the capacity bound; the new mail is the last inbox entry; at capacity the inbox becomes `old[1..] + [mail]` and the trash gains exactly `old[0]`; below capacity the trash is unchanged and the inbox grows by the mail; date order and distinct messages are preserved when the caller's guarantees hold |
| Driver.Gmail.MoveOldestMailToTrash | src/main/java/com/driver/Gmail.java:38-41 | removes the first inbox mail and appends it to the trash; what stays in the inbox keeps its date order and distinct messages |
| Driver.Gmail.DeleteMail | src/main/java/com/driver/Gmail.java:43-56 | the new inbox is the old one with every mail carrying the message filtered out, order kept; the trash gains exactly those mails in inbox order; counter = inbox length; date order and distinct messages are preserved |
| Driver.Gmail.FindLatestMessage | src/main/java/com/driver/Gmail.java:58-67 | absent exactly when the inbox is empty; otherwise the last inbox mail's message, whose date is the greatest when the inbox is date-ordered |
| Driver.Gmail.FindOldestMessage | src/main/java/com/driver/Gmail.java:69-77 | absent exactly when the inbox is empty; otherwise the first inbox mail's message, whose date is the smallest when the inbox is date-ordered |
| Driver.Gmail.FindMailsBetweenDates | src/main/java/com/driver/Gmail.java:79-95 | returns the number of inbox mails dated in [start, end] (bounds included), at most the inbox size; reads only the inbox |
| Driver.Gmail.GetInboxSize | src/main/java/com/driver/Gmail.java:97-100 | the reported counter equals the inbox length |
| Driver.Gmail.GetTrashSize | src/main/java/com/driver/Gmail.java:102-105 | zero exactly when the trash is empty |
| Driver.Gmail.EmptyTrash | src/main/java/com/driver/Gmail.java:107-110 | the trash becomes empty and the invariant still holds; inbox and counter are outside its frame and stay unchanged |
| Driver.Gmail.GetInboxCapacity | src/main/java/com/driver/Gmail.java:112-115 | the returned capacity bounds every non-empty inbox |
| Driver.Remaining | src/main/java/com/driver/Gmail.java:46-55 | what a deletion keeps is never longer than the inbox |
| Driver.Removed | src/main/java/com/driver/Gmail.java:46-55 | what a deletion trashes is never longer than the inbox |
| Driver.CountInRange | src/main/java/com/driver/Gmail.java:82-94 | the range count is zero on an empty inbox and never exceeds the inbox length |
| Driver.RemainingAppend | src/main/java/com/driver/Gmail.java:46-55 | deletion works element by element: filtering a concatenation filters each part |
| Driver.FilterMembers | src/main/java/com/driver/Gmail.java:46-55 | after a deletion no inbox mail carries the message; every trashed mail carries it; both come from the old inbox |
| Driver.RemainingRemovedPartition | src/main/java/com/driver/Gmail.java:46-55 | the kept mails and the trashed mails together are exactly the old inbox (as a multiset): nothing lost, nothing copied into both |
| Driver.RemainingUnchangedIff | src/main/java/com/driver/Gmail.java:43-56 | a deletion leaves the inbox unchanged, and trashes nothing, if and only if no inbox mail carries the message |
| Driver.DistinctRemovesAtMostOne | src/main/java/com/driver/Gmail.java:44-45 | with distinct messages in the inbox, a deletion trashes at most one mail |
| Driver.RemainingKeepsOrder | src/main/java/com/driver/Gmail.java:43-56 | deletion keeps a date-ordered inbox date-ordered and keeps distinct messages distinct |
| Driver.CountInRangeAppend | src/main/java/com/driver/Gmail.java:86-92 | the range count of a concatenation is the sum of the counts of its parts |
| Driver.CountInRangeExtremes | src/main/java/com/driver/Gmail.java:86-92 | the count equals the inbox length iff every mail is in range, and is zero iff none is |
| Driver.CountInRangeAfterDelete | src/main/java/com/driver/Gmail.java:43-56 | the range count of the old inbox splits exactly into that of the kept mails and that of the trashed mails |
| Driver.LastIsLatest | src/main/java/com/driver/Gmail.java:26-28 | in a date-ordered inbox the first mail is the oldest and the last is the latest |

## Left out

- The `Email` superclass is not part of this model: only the account identifier it holds is kept, as the field `emailId`.
- The `Mail` class is not part of this model: it is modelled as an immutable datatype of the three values passed to `new Mail(date, sender, message)` (src/main/java/com/driver/Gmail.java:29).
- Java `null` for a message, a date or a range bound is not modelled: the `string` and `int` types exclude it. So the model does not capture that `findLatestMessage`/`findOldestMessage` return `null` on a non-empty inbox whose last/first mail has a `null` message, that `deleteMail` throws a NullPointerException on a stored `null` message, that `findMailsBetweenDates` throws on a `null` `start` over a non-empty inbox, on a `null` `end` once some mail is dated at or after `start`, and on a stored `null` date, or that `deleteMail(null)` does nothing.
- `java.util.Date` is replaced by an integer timestamp; only the order of dates is used.
- The console trace printed inside the date-range loop is left out: it is output only and does not affect the result.
- `Gmail` never writes `inboxCapacity` or the account identifier after construction, so both are `const` fields here; `Email`, which receives the identifier through `super(emailId)`, is outside the model.
- A capacity below one: the constructor accepts it, but then the first `receiveMail` evicts from an empty inbox and throws. `ReceiveMail` requires `capacity >= 1` instead of modelling the exception.
- 32-bit `int` overflow of the counter is not modelled; the counter never exceeds the capacity.
- Driver.Gmail.GetTrashSize: its contract states only that the size is zero exactly when the trash is empty; the exact value `|trash|` is the function's body, which callers see.
- Driver.Gmail.GetInboxCapacity: its contract states the capacity bound; that it returns the constructor's value follows from the `const` field and the constructor's contract.
- Arrival in non-decreasing date order and distinct inbox messages are caller guarantees in the source. The model proves they are preserved, but it does not enforce them.
