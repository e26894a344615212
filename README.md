# Football OTP backend: the per-player passcode table

This project models the one-time-passcode (OTP) service of the football
backend. The service keeps one table, `otp`, keyed by player id. Each row
holds the player's e-mail, the passcode text, an expiry time and a counter
of failed guesses. Three HTTP handlers act on the table:

- **generate** (`generate_otp`) draws a number in 100000..999999 and writes
  its decimal text as the code. It deletes any row the player has and
  inserts a fresh one: the given e-mail, the code, an expiry five minutes
  from now and a counter of 0. It commits, and only then mails the code.
  There is no limit on how often a player can generate.
- **validate** (`validate_otp`) runs its checks in a fixed order, and the
  first check that fails decides the answer:
  1. no row: not found;
  2. 3 or more failed guesses: locked;
  3. wrong e-mail or code: the counter goes up by one, then mismatch;
  4. the current time is strictly after the expiry: expired;
  5. otherwise success, and the counter is set back to 0.

  A success does not delete the row or the code.
- **get** (`get_otp`) returns the stored row, or not found, and changes nothing.

Files:

- `decimal.dfy` (module `Decimal`): the decimal text of a number, as
  Python's `f"{n}"` writes it, and the lemmas that it reads back to the same
  number and that it is the only canonical numeral for that number.
- `otp_api.dfy` (module `OtpApi`): the record, the status values and the
  table as a map. It has the pure step functions `IssueStore` and
  `ValidateStep`. The class `OtpTable` has a `records` map field and the
  three handlers as the methods `Generate`, `Validate` and `Peek`. Each
  method's postcondition ties the new table to the matching step function.
- `otp_properties.dfy` (module `OtpProperties`): lemmas that pin down each
  outcome of validation, that combine a generation with the validations
  after it, and that follow arbitrary request sequences (`Run`). It ends
  with a client session that drives the class.

Parameters stand in for the parts of the outside world. Time is an integer
count of seconds: `now` is the clock reading, and 5 minutes is 300. The
random number is `code`, of the subset type `Code` = 100000..999999. The
mail client's result is `delivered`. Status values map to the handlers' HTTP
answers: `Ok` 200, `NotFound` 404, `Locked` 403, `Mismatch` 401, `Expired`
400 and `DeliveryFailed` 500.

The model follows the code as written:

- there is no cap on generation attempts;
- the counter rises only on a mismatch;
- any submitted string is compared directly with the stored text, so there
  is no separate malformed-code outcome;
- a success resets only the counter and keeps the code usable until it
  expires;
- the code has 6 digits.

Because of this, a code can pass validation more than once
within its window (`ValidateOkRepeats`). Generating again lifts a lock-out,
whatever was stored before (`IssueThenValidate`).

## Model

| member | source | states |
|---|---|---|
| `Decimal.ToDecimal` | otp_api.py:64 | the text of a number is a canonical numeral: non-empty, all digits, no leading zero |
| `Decimal.ValueOfToDecimal` | otp_api.py:64 | reading back the decimal text of `n` gives `n` |
| `Decimal.ToDecimalValueOf` | otp_api.py:64 | writing out the value of a canonical numeral gives the same numeral back |
| `Decimal.ToDecimalLength` | otp_api.py:64 | a number with `k` digits (zero counting as one digit) has a text of exactly `k` characters |
| `Decimal.ToDecimalUnique` | otp_api.py:64 | a string is the text of `n` if and only if it is a canonical numeral whose value is `n` |
| `Decimal.LeadingZeroBound` | otp_api.py:64 | a digit string that starts with '0' has a value below the smallest number of its width |
| `OtpApi.CodeText` | otp_api.py:64 | the stored code is six digits, with no leading zero, whose value is the drawn number |
| `OtpApi.SubmittedMatchesCode` | otp_api.py:64 | a submitted string equals the stored code if and only if it is six digits whose value is the drawn number |
| `OtpApi.IssueStore` | otp_api.py:65-78 | after generation the player has exactly the fresh record (given e-mail and code, expiry now + 300, counter 0); the key set gains only that player; every other row is unchanged |
| `OtpApi.ValidateStep` | otp_api.py:85-113 | validation never adds or removes rows and never changes another player's row; of the player's row only the counter can change; a counter within the limit stays within it; success implies a matching, unexpired record whose counter becomes 0 |
| `OtpApi.OtpTable.Generate` | otp_api.py:62-82 | keeps the table invariant (no counter above 3); the table becomes `IssueStore` of the old table, whether or not the mail is delivered; the status is Ok when delivered and DeliveryFailed otherwise |
| `OtpApi.OtpTable.Validate` | otp_api.py:85-113 | keeps the table invariant (no counter above 3); the handler's checks run in order on the field, and the status and new table are those of `ValidateStep` |
| `OtpApi.OtpTable.Peek` | otp_api.py:116-130 | returns Ok with the stored row when the player has one, and NotFound with nothing otherwise; the table is not modified |
| `OtpProperties.ApplyKeepsCountsBounded` | otp_api.py:94-102 | one request of any kind keeps every failed-guess counter at or below 3 |
| `OtpProperties.RunKeepsCountsBounded` | otp_api.py:62-113 | any sequence of requests keeps every counter at or below 3 once all counters start there |
| `OtpProperties.CountsBoundedFromEmpty` | otp_api.py:76 | starting from the empty table, no counter ever exceeds 3 |
| `OtpProperties.RunKeys` | otp_api.py:69-78 | requests never delete a row, and a row that appears comes from a generation request for that player |
| `OtpProperties.IssueReplaces` | otp_api.py:64-78 | after generation the player's row holds the given e-mail, a six-digit code in 100000..999999, expiry now + 300 and counter 0, whatever was stored before |
| `OtpProperties.IssueTwice` | otp_api.py:68-78 | two generations in a row for one player leave only the second record |
| `OtpProperties.ValidateNotFound` | otp_api.py:88-92 | with no row, the result is NotFound and the table is unchanged |
| `OtpProperties.ValidateLocked` | otp_api.py:94-96 | with 3 or more failed guesses, the result is Locked and nothing changes, even for the right e-mail and code before expiry |
| `OtpProperties.ValidateMismatch` | otp_api.py:98-102 | below the limit, a wrong e-mail or code gives Mismatch; the counter rises by exactly 1 and nothing else changes, expired or not |
| `OtpProperties.ValidateExpired` | otp_api.py:104-106 | with the right e-mail and code but a time past the expiry, the result is Expired and the counter is not incremented |
| `OtpProperties.ValidateOk` | otp_api.py:94-113 | success holds if and only if the row exists, is not locked, matches, and the time is at or before the expiry; on success the row keeps its e-mail, code and expiry, and its counter becomes 0 |
| `OtpProperties.ValidateOkRepeats` | otp_api.py:108-113 | after a success, the same validation at the same or a later time within the window succeeds again and changes nothing |
| `OtpProperties.IssueThenValidate` | otp_api.py:62-113 | right after generation, the code is accepted up to and including now + 300 and is Expired after that; either way the row stays as generated |
| `OtpProperties.WrongGuessesAccumulate` | otp_api.py:98-102 | a run of wrong guesses within the limit raises the counter by the number of guesses and changes nothing else |
| `OtpProperties.LockedAfterThreeWrongGuesses` | otp_api.py:94-102 | after a fresh generation and three wrong guesses, the right code is refused with Locked at any time |
| `OtpProperties.LockoutSession` | otp_api.py:62-130 | a session on the class: generation with a failed mail still stores the code and get finds it; three wrong guesses lock the record; after a new generation with a different code, that code is accepted twice |

## Left out

- HTTP routing, status codes and request-body validation (FastAPI, pydantic). The status codes appear only as the constructors of `Status`. E-mail addresses are opaque strings: a `validate` request must repeat the address exactly, and any normalisation by the request schema is not modelled.
- SendGrid delivery is not modelled. The outcome of the send is the boolean parameter `delivered`, and the send happens after the table update.
- The database engine, sessions, commits and environment loading are not modelled. The map field stands in for the committed table. Storage failures and rows with NULL columns are outside the model.
- `randint` and `datetime.utcnow()` are not modelled. The drawn number and the clock reading are parameters. Time is whole seconds, so sub-second timestamps are not modelled.
- Concurrent requests are not modelled. Two validations that read the same counter and each write counter + 1 can lose an increment; this sequential model cannot show that.
- reset_db.py is not part of this model. It only drops and recreates the table.
