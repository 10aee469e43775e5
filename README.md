# Mail bot sender rotation, in Dafny

A Dafny model of the part of the mail bot (`main.py`) that chooses which
sender account sends the next message. The bot keeps a list of accounts
loaded from the environment. Each sender address has a daily counter, capped
at `DAILY_LIMIT = 450`. A rotation cursor says which account to try next. The
counters go back to zero when the calendar day changes. The model also covers
the control flags that the "continue last task" endpoint sets.

Files:

- `wrappers.dfy`: module `Wrappers`, the `Option` type used for
  "an account or `None`".
- `accounts.dfy`: module `Accounts`, `load_accounts`. The environment is a
  map from variable names to values. The variable names `EMAIL{i}` and
  `APP_PASSWORD{i}` are built from the decimal digits of `i`.
- `pool.dfy`: module `Pool`, the account pool as values. It holds the
  counters and the rotation search of `get_next_account` as a function of
  the counters and the cursor. It also holds the day rollover of
  `reset_daily_usage` and the counter update of `send_email`, with the
  lemmas about them.
- `mailbot.dfy`: module `MailBot`, class `Bot`. Its fields are the
  module-level globals of `main.py:35-47`. Its methods update them in place,
  as the Python functions do. Each pool operation's `ensures`
  (`ResetDailyUsage`, `GetNextAccount`, `SendEmail`) ties the new state to
  the matching function of `Pool`. The constructor and `ContinueTask` state
  their new state directly.

How the source's inputs are modelled:

- The clock (`datetime.date.today()`) is a `Date` parameter.
- The environment (`os.getenv`) is an `Env` map parameter.
- The SMTP exchange is a `Transport` parameter: `Delivered`, or `Raised(text)`
  for an exception with that text.

Behaviour of `main.py` worth noting:

- `get_next_account` moves the cursor one place for every account it looks
  at (main.py:61). A call that finds an account at offset `d` moves it
  `d + 1` places. A call that finds nothing moves it `n` places, so it ends
  where it started.
- The counter increment at main.py:78 sits inside the same `try` as the SMTP
  exchange. So for a sender with no counter, the `KeyError` goes to the same
  `except` (main.py:80-81). `send_email` then reports a failed send with
  `str(e)` as the reason, after the message has already gone out.
- `load_accounts` needs both variables to be set and non-empty
  (main.py:28). Python's truthiness test treats an empty value like a
  missing one.
- Accounts that share an address share one counter, because `account_usage`
  is a dictionary keyed by address (main.py:37, 54).

## Model

| member | source | states |
|---|---|---|
| `Accounts.DecimalRoundTrip` | main.py:26-27 | The decimal form of an index used in the variable names can be parsed back to the same index, so different indices give different names. |
| `Accounts.EmailKeyInjective` | main.py:26 | Two indices with the same `EMAIL{i}` variable name are equal. |
| `Accounts.LoadAccounts` | main.py:22-33 | The result holds the accounts of indices 1..k in order, each built from its `EMAIL{i}` and `APP_PASSWORD{i}` values. Index k+1 is the first whose variables are not both set to non-empty values. The loop terminates on every finite environment. |
| `Accounts.LoadedFromUnique` | main.py:22-33 | That description fixes the loaded list completely: any two lists that satisfy it are equal. |
| `Pool.Search` | main.py:59-63 | Any number of search rounds, up to the pool size, leaves the cursor a valid index (0 when the pool is empty). An account it returns is in the pool and below the limit. |
| `Pool.NextAccount` | main.py:57-64 | After `get_next_account` the cursor is a valid index, and any account returned is in the pool with usage below `DAILY_LIMIT`. With no accounts the loop never runs, so no modulo by zero happens. |
| `Pool.SearchFound` | main.py:59-63 | A search that returns an account returns the first eligible one in cyclic order from the cursor. It sits at an offset `d` below the given number of rounds, after exactly `d + 1` accounts were looked at, and the cursor ends just past it. |
| `Pool.SearchExhausted` | main.py:59-64 | A search that returns nothing has looked at that many accounts in a row. None of them was eligible, and the cursor moved one place for each. |
| `Pool.NextAccountFirstEligible` | main.py:57-64 | A returned account is at the first eligible offset `d < n` from the old cursor, and the new cursor is `(cursor + d + 1) mod n`. |
| `Pool.NextAccountNone` | main.py:59-64 | `None` is returned exactly when no account in the pool is eligible, meaning each has no counter or is at the limit (both directions). When every address has a counter, as the bot always keeps, `None` is returned exactly when every account is at or over the limit. On `None` the cursor is back where it started. |
| `Pool.RotationCovers` | main.py:59-61 | The `n` offsets of one rotation, from any starting cursor, reach every index `j` of the pool: the offset `d < n` lands on position `(cursor + d) mod n == j`. |
| `Pool.ResetIfNewDay` | main.py:50-55 | The recorded date becomes `today`. On a new day the counters become exactly one zero per address of the pool. On the same day the counters are unchanged. |
| `Pool.ResetIdempotent` | main.py:53-55 | A second reset with the same `today` changes nothing. |
| `Pool.ResetKeepsInvariant` | main.py:54 | A reset keeps exactly one counter per account address and keeps every counter within the limit. |
| `Pool.RecordSend` | main.py:66-81 | A send is reported ok exactly when the transport delivered and the sender has a counter. Then the error text is empty and that one counter goes up by exactly 1. Otherwise no counter moves, and the error is the exception text: the transport's text, or the quoted address for the `KeyError`. No other counter ever changes. |
| `Pool.SendThroughNextKeepsQuota` | main.py:57-81 | If every counter is within the limit and a message is sent through the account `get_next_account` just returned, every counter is still within the limit, whatever the transport did. |
| `MailBot.Bot.constructor` | main.py:35-47 | Start-up state: accounts loaded from the environment as above, the cursor at 0, one zero counter per address, the reset date set to today, the recipient lists as loaded, an empty queue and both flags false. |
| `MailBot.Bot.ResetDailyUsage` | main.py:50-55 | The counters and date become `ResetIfNewDay` of the old ones. Afterwards the date is `today`. On the same day the counters are unchanged, so a repeated call is a no-op. The cursor and the recipients are not touched. |
| `MailBot.Bot.GetNextAccount` | main.py:57-64 | The result and the new cursor are `NextAccount` of the old counters and cursor. At least one and at most `len(ACCOUNTS)` accounts are looked at when an account is returned, and all of them on `None`. The cursor moves one place per account looked at. Only the cursor changes. |
| `MailBot.Bot.SendEmail` | main.py:66-81 | The result and the new counters are `RecordSend` of the old counters. For an account of the pool the result is ok exactly when the transport delivered. Sending through an eligible account keeps every counter within the limit. Only the counters change. |
| `MailBot.Bot.ContinueTask` | main.py:257-263 | With pending recipients, exactly one resume job is appended to the queue, `isSending` becomes true and `paused` false. With none, the queue and flags are unchanged. The reply text is the same in both cases. |

## Left out

- The SMTP session itself (building the MIME message, connecting, STARTTLS, login, sendmail, quit; main.py:68-77) is network I/O. Only its outcome enters the model, as the `Transport` parameter.
- `Pool.KeyErrorText` renders `str(KeyError(email))` as the address in single quotes. Python's `repr` quoting and escaping for addresses that contain quotes, backslashes or unprintable characters is not modelled.
- `save_recipients`, `load_recipients` (main.py:83-95) and `log_message` (main.py:97-99) are file I/O. The constructor takes the recipient lists that `load_recipients` would have read.
- The Flask routes, the HTML page and server start-up (main.py:102-253, 272-275) are web plumbing. Only the state change of `continue_task` is modelled. Its JSON wrapping is left out.
- The send loop, pause/resume/stop, `/send-stream` and ledger handling are named at main.py:266-270 but not present in the code. Nothing is modelled for them.
- Flask's threaded request handling (main.py:275) is concurrency. The model treats every operation as one atomic step on the shared state.
- `os.getenv` and `datetime.date.today()` are replaced by the `Env` and `Date` parameters. Time zones and the calendar are not modelled; only whether two dates are equal matters.
