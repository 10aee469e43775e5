/** The account pool as values: per-address usage counters, the rotation
    search of get_next_account, the day rollover of reset_daily_usage and the
    counter update of send_email (main.py). */
module Pool {
  import opened Wrappers
  import opened Accounts

  /** Deliveries one address may make per day (main.py:17). */
  const DAILY_LIMIT: nat := 450

  /** Deliveries made today, keyed by sender address. */
  type Usage = map<string, nat>

  /** The calendar date the counters were last reset on. */
  datatype Date = Date(year: int, month: int, day: int)

  /** The addresses of the pool; accounts sharing an address share a counter. */
  function EmailsOf(accounts: seq<Account>): set<string>
  {
    set a | a in accounts :: a.email
  }

  /** The account may still send today. */
  predicate Eligible(usage: Usage, a: Account)
  {
    a.email in usage && usage[a.email] < DAILY_LIMIT
  }

  /** No counter is above the daily limit. */
  predicate WithinQuota(usage: Usage)
  {
    forall e :: e in usage ==> usage[e] <= DAILY_LIMIT
  }

  /** The rotation cursor indexes the pool; with no accounts it stays 0. */
  predicate CursorOk(accounts: seq<Account>, cursor: nat)
  {
    if |accounts| == 0 then cursor == 0 else cursor < |accounts|
  }

  /** Reduces a position below `2 * n` into the range of a pool of `n`: the
      value `i % n` takes there. */
  function Wrap(i: nat, n: nat): nat
    requires i < 2 * n
  {
    if i < n then i else i - n
  }

  /** The cursor update `(cursor + 1) % n` of get_next_account stays inside
      the pool, wrapping from the last account to the first. */
  lemma StepMod(cursor: nat, n: nat)
    requires cursor < n
    ensures (cursor + 1) % n == Wrap(cursor + 1, n)
  {
  }

  /** The account `d` places after `cursor` in cyclic order. */
  function Visit(accounts: seq<Account>, cursor: nat, d: nat): Account
    requires cursor < |accounts| && d < |accounts|
  {
    accounts[Wrap(cursor + d, |accounts|)]
  }

  /** `d` is the first offset from `cursor` whose account is eligible. */
  predicate FirstEligibleAt(accounts: seq<Account>, usage: Usage, cursor: nat, d: nat)
    requires cursor < |accounts| && d < |accounts|
  {
    Eligible(usage, Visit(accounts, cursor, d)) &&
    forall k :: 0 <= k < d ==> !Eligible(usage, Visit(accounts, cursor, k))
  }

  /** What `fuel` more rounds of the search loop return, and where they leave
      the cursor: each round reads the account under the cursor, moves the
      cursor one place on, and stops if that account was eligible. */
  function Search(accounts: seq<Account>, usage: Usage, cursor: nat, fuel: nat): (r: (Option<Account>, nat))
    requires CursorOk(accounts, cursor) && fuel <= |accounts|
    ensures CursorOk(accounts, r.1)
    ensures r.0.Some? ==> r.0.value in accounts && Eligible(usage, r.0.value)
    decreases fuel
  {
    if fuel == 0 then (None, cursor)
    else
      var a := accounts[cursor];
      var next := (cursor + 1) % |accounts|;
      if Eligible(usage, a) then (Some(a), next) else Search(accounts, usage, next, fuel - 1)
  }

  /** One call of get_next_account: at most one full rotation (main.py:57-64). */
  function NextAccount(accounts: seq<Account>, usage: Usage, cursor: nat): (r: (Option<Account>, nat))
    requires CursorOk(accounts, cursor)
    ensures CursorOk(accounts, r.1)
    ensures r.0.Some? ==> r.0.value in accounts && Eligible(usage, r.0.value)
  {
    Search(accounts, usage, cursor, |accounts|)
  }

  /** Moving the cursor one place on shifts every later offset by one. */
  lemma ShiftVisit(accounts: seq<Account>, cursor: nat, d: nat)
    requires cursor < |accounts| && d + 1 < |accounts|
    ensures Visit(accounts, (cursor + 1) % |accounts|, d) == Visit(accounts, cursor, d + 1)
  {
    StepMod(cursor, |accounts|);
  }

  /** A search that finds an account finds the first eligible one in cyclic
      order, after `d + 1` rounds, and leaves the cursor just past it. */
  lemma {:induction false} SearchFound(accounts: seq<Account>, usage: Usage, cursor: nat, fuel: nat)
    returns (d: nat)
    requires CursorOk(accounts, cursor) && fuel <= |accounts|
    requires Search(accounts, usage, cursor, fuel).0.Some?
    ensures |accounts| > 0 && d < fuel
    ensures FirstEligibleAt(accounts, usage, cursor, d)
    ensures Search(accounts, usage, cursor, fuel).0.value == Visit(accounts, cursor, d)
    ensures Search(accounts, usage, cursor, fuel).1 == Wrap(cursor + d + 1, |accounts|)
    decreases fuel
  {
    var n := |accounts|;
    var next := (cursor + 1) % n;
    StepMod(cursor, n);
    assert Visit(accounts, cursor, 0) == accounts[cursor];
    if Eligible(usage, accounts[cursor]) {
      d := 0;
    } else {
      var d' := SearchFound(accounts, usage, next, fuel - 1);
      d := d' + 1;
      ShiftVisit(accounts, cursor, d');
      forall k | 0 <= k < d
        ensures !Eligible(usage, Visit(accounts, cursor, k))
      {
        if k > 0 {
          ShiftVisit(accounts, cursor, k - 1);
        }
      }
    }
  }

  /** A search that finds nothing has seen `fuel` ineligible accounts in a
      row and moved the cursor `fuel` places on. */
  lemma {:induction false} SearchExhausted(accounts: seq<Account>, usage: Usage, cursor: nat, fuel: nat)
    requires CursorOk(accounts, cursor) && fuel <= |accounts|
    requires Search(accounts, usage, cursor, fuel).0.None?
    ensures |accounts| > 0 ==> Search(accounts, usage, cursor, fuel).1 == Wrap(cursor + fuel, |accounts|)
    ensures |accounts| > 0 ==> forall k :: 0 <= k < fuel ==> !Eligible(usage, Visit(accounts, cursor, k))
    decreases fuel
  {
    if fuel > 0 {
      var n := |accounts|;
      var next := (cursor + 1) % n;
      StepMod(cursor, n);
      assert Visit(accounts, cursor, 0) == accounts[cursor];
      SearchExhausted(accounts, usage, next, fuel - 1);
      forall k | 0 <= k < fuel
        ensures !Eligible(usage, Visit(accounts, cursor, k))
      {
        if k > 0 {
          ShiftVisit(accounts, cursor, k - 1);
        }
      }
    }
  }

  /** Every index of the pool is some offset of a full rotation from any cursor. */
  lemma RotationCovers(accounts: seq<Account>, cursor: nat, j: nat) returns (d: nat)
    requires cursor < |accounts| && j < |accounts|
    ensures d < |accounts| && Wrap(cursor + d, |accounts|) == j
    ensures Visit(accounts, cursor, d) == accounts[j]
  {
    var n := |accounts|;
    d := if j >= cursor then j - cursor else j + n - cursor;
  }

  /** A returned account is eligible, is the first eligible one in cyclic
      order from the cursor, and the cursor ends just past it. */
  lemma NextAccountFirstEligible(accounts: seq<Account>, usage: Usage, cursor: nat)
    returns (d: nat)
    requires CursorOk(accounts, cursor)
    requires NextAccount(accounts, usage, cursor).0.Some?
    ensures |accounts| > 0 && d < |accounts|
    ensures FirstEligibleAt(accounts, usage, cursor, d)
    ensures NextAccount(accounts, usage, cursor).0.value == Visit(accounts, cursor, d)
    ensures NextAccount(accounts, usage, cursor).1 == Wrap(cursor + d + 1, |accounts|)
  {
    d := SearchFound(accounts, usage, cursor, |accounts|);
  }

  /** get_next_account returns None exactly when no account of the pool is
      eligible (each has no counter or is at the limit; when every address has
      a counter, exactly when every account is at the limit), and then the
      cursor is back where it started. */
  lemma NextAccountNone(accounts: seq<Account>, usage: Usage, cursor: nat)
    requires CursorOk(accounts, cursor)
    ensures NextAccount(accounts, usage, cursor).0.None? <==> forall a :: a in accounts ==> !Eligible(usage, a)
    ensures NextAccount(accounts, usage, cursor).0.None? ==> NextAccount(accounts, usage, cursor).1 == cursor
    ensures EmailsOf(accounts) <= usage.Keys ==>
              (NextAccount(accounts, usage, cursor).0.None? <==> forall a :: a in accounts ==> usage[a.email] >= DAILY_LIMIT)
  {
    var n := |accounts|;
    if NextAccount(accounts, usage, cursor).0.None? {
      SearchExhausted(accounts, usage, cursor, n);
      forall a | a in accounts
        ensures !Eligible(usage, a)
      {
        var j :| 0 <= j < n && accounts[j] == a;
        var d := RotationCovers(accounts, cursor, j);
      }
    }
  }

  /** The counters after `reset_daily_usage(today)`, and the recorded date
      (main.py:50-55): on a new day every address starts again at zero. */
  function ResetIfNewDay(accounts: seq<Account>, usage: Usage, lastReset: Date, today: Date): (r: (Usage, Date))
    ensures r.1 == today
    ensures today == lastReset ==> r.0 == usage
    ensures today != lastReset ==> r.0.Keys == EmailsOf(accounts) && forall e :: e in r.0 ==> r.0[e] == 0
  {
    if today != lastReset then (map e | e in EmailsOf(accounts) :: 0, today) else (usage, lastReset)
  }

  /** Resetting twice on the same day is the same as resetting once. */
  lemma ResetIdempotent(accounts: seq<Account>, usage: Usage, lastReset: Date, today: Date)
    ensures var (u, d) := ResetIfNewDay(accounts, usage, lastReset, today);
            ResetIfNewDay(accounts, u, d, today) == (u, d)
  {
  }

  /** A reset keeps one counter per address of the pool and never puts a
      counter over the limit. */
  lemma ResetKeepsInvariant(accounts: seq<Account>, usage: Usage, lastReset: Date, today: Date)
    requires usage.Keys == EmailsOf(accounts) && WithinQuota(usage)
    ensures ResetIfNewDay(accounts, usage, lastReset, today).0.Keys == EmailsOf(accounts)
    ensures WithinQuota(ResetIfNewDay(accounts, usage, lastReset, today).0)
  {
  }

  /** What the SMTP exchange of send_email did (main.py:68-77): it went
      through, or it raised an exception with this text. */
  datatype Transport = Delivered | Raised(error: string)

  /** Text of the KeyError raised for a sender with no counter, as `str(e)`
      gives it: the key in quotes. */
  function KeyErrorText(email: string): string
  {
    "'" + email + "'"
  }

  /** The outcome `(ok, error)` of send_email and the counters after it
      (main.py:66-81). A delivery counts once against its sender's address;
      a sender with no counter makes the increment raise, which the
      exception handler reports as a failure. */
  function RecordSend(usage: Usage, account: Account, transport: Transport): (r: (bool, string, Usage))
    ensures r.0 <==> transport.Delivered? && account.email in usage
    ensures r.0 ==> r.1 == ""
    ensures transport.Raised? ==> r.1 == transport.error
    ensures transport.Delivered? && account.email !in usage ==> r.1 == KeyErrorText(account.email)
    ensures r.2.Keys == usage.Keys
    ensures forall e :: e in usage && e != account.email ==> r.2[e] == usage[e]
    ensures account.email in usage ==> r.2[account.email] == usage[account.email] + (if r.0 then 1 else 0)
  {
    match transport
    case Raised(error) => (false, error, usage)
    case Delivered =>
      if account.email in usage then (true, "", usage[account.email := usage[account.email] + 1])
      else (false, KeyErrorText(account.email), usage)
  }

  /** Sending through the account get_next_account just chose keeps every
      counter within the daily limit, whatever the transport does. */
  lemma SendThroughNextKeepsQuota(accounts: seq<Account>, usage: Usage, cursor: nat, transport: Transport)
    requires CursorOk(accounts, cursor) && WithinQuota(usage)
    requires NextAccount(accounts, usage, cursor).0.Some?
    ensures WithinQuota(RecordSend(usage, NextAccount(accounts, usage, cursor).0.value, transport).2)
  {
  }
}
