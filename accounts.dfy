/** Sender accounts read from the process environment (main.py, load_accounts). */
module Accounts {

  /** One sender identity: the address and the application password used to log in. */
  datatype Account = Account(email: string, appPassword: string)

  /** The process environment, as the variables `os.getenv` can see. */
  type Env = map<string, string>

  /** The character of a decimal digit. */
  function DigitChar(d: nat): char
    requires d < 10
  {
    (48 + d) as char
  }

  /** The value of a decimal digit character (0 for any other character). */
  function DigitValue(c: char): nat
  {
    if '0' <= c <= '9' then c as int - '0' as int else 0
  }

  /** The decimal representation of `n`, as an f-string formats an int. */
  function Decimal(n: nat): string
    decreases n
  {
    if n < 10 then [DigitChar(n)] else Decimal(n / 10) + [DigitChar(n % 10)]
  }

  /** Reads a string of decimal digits back as a number. */
  function ParseDecimal(s: string): nat
    decreases |s|
  {
    if s == [] then 0 else ParseDecimal(s[..|s| - 1]) * 10 + DigitValue(s[|s| - 1])
  }

  /** Formatting a number in decimal loses nothing: parsing gives it back. */
  lemma {:induction false} DecimalRoundTrip(n: nat)
    ensures ParseDecimal(Decimal(n)) == n
    decreases n
  {
    var s := Decimal(n);
    if n < 10 {
      assert s[..|s| - 1] == [];
    } else {
      assert s[..|s| - 1] == Decimal(n / 10);
      DecimalRoundTrip(n / 10);
    }
  }

  /** The name of the variable holding the address of the `i`-th account. */
  function EmailKey(i: nat): string
  {
    "EMAIL" + Decimal(i)
  }

  /** The name of the variable holding the password of the `i`-th account. */
  function PasswordKey(i: nat): string
  {
    "APP_PASSWORD" + Decimal(i)
  }

  /** Distinct indices name distinct address variables. */
  lemma EmailKeyInjective(i: nat, j: nat)
    requires EmailKey(i) == EmailKey(j)
    ensures i == j
  {
    assert Decimal(i) == EmailKey(i)[5..];
    assert Decimal(j) == EmailKey(j)[5..];
    DecimalRoundTrip(i);
    DecimalRoundTrip(j);
  }

  /** `os.getenv(key)` is truthy: the variable is set and not empty. */
  predicate Truthy(env: Env, key: string)
  {
    key in env && env[key] != ""
  }

  /** Both variables of the `i`-th account are set to non-empty values. */
  predicate HasAccount(env: Env, i: nat)
  {
    Truthy(env, EmailKey(i)) && Truthy(env, PasswordKey(i))
  }

  /** The account the variables of index `i` describe. */
  function AccountAt(env: Env, i: nat): Account
    requires HasAccount(env, i)
  {
    Account(env[EmailKey(i)], env[PasswordKey(i)])
  }

  /** `accounts` holds the accounts of indices 1, 2, ..., k in order, and
      index k + 1 is the first one missing a variable. */
  ghost predicate LoadedFrom(env: Env, accounts: seq<Account>)
  {
    && (forall i :: 1 <= i <= |accounts| ==> HasAccount(env, i) && accounts[i - 1] == AccountAt(env, i))
    && !HasAccount(env, |accounts| + 1)
  }

  /** The description of the loaded accounts determines them completely. */
  lemma LoadedFromUnique(env: Env, s: seq<Account>, t: seq<Account>)
    requires LoadedFrom(env, s) && LoadedFrom(env, t)
    ensures s == t
  {
    assert |s| == |t|;
    forall k | 0 <= k < |s|
      ensures s[k] == t[k]
    {
      assert HasAccount(env, k + 1);
    }
  }

  /** A subset of a finite set is no larger than the set. */
  lemma {:induction false} SubsetCardinality<T>(a: set<T>, b: set<T>)
    requires a <= b
    ensures |a| <= |b|
    decreases |a|
  {
    if a != {} {
      var x :| x in a;
      SubsetCardinality(a - {x}, b - {x});
    }
  }

  /** The address variables of indices 1 .. i - 1. */
  ghost function KeysSoFar(i: nat): set<string>
  {
    set j | 1 <= j < i :: EmailKey(j)
  }

  /** The next address variable is new, so the set of names seen grows by one. */
  lemma KeysSoFarStep(i: nat)
    requires i >= 1
    ensures EmailKey(i) !in KeysSoFar(i)
    ensures KeysSoFar(i + 1) == KeysSoFar(i) + {EmailKey(i)}
  {
    if EmailKey(i) in KeysSoFar(i) {
      var j :| 1 <= j < i && EmailKey(j) == EmailKey(i);
      EmailKeyInjective(i, j);
    }
    forall x | x in KeysSoFar(i + 1)
      ensures x in KeysSoFar(i) + {EmailKey(i)}
    {
      var j :| 1 <= j < i + 1 && x == EmailKey(j);
      if j < i {
        assert x in KeysSoFar(i);
      }
    }
  }

  /** Collects the accounts of indices 1, 2, ... until a variable is missing
      or empty (main.py, load_accounts). */
  method LoadAccounts(env: Env) returns (accounts: seq<Account>)
    ensures LoadedFrom(env, accounts)
  {
    accounts := [];
    var i := 1;
    ghost var seen: set<string> := {};
    while true
      invariant i == |accounts| + 1
      invariant forall k :: 1 <= k <= |accounts| ==> HasAccount(env, k) && accounts[k - 1] == AccountAt(env, k)
      invariant seen == KeysSoFar(i)
      invariant seen <= env.Keys
      invariant |seen| == i - 1
      decreases |env.Keys| - |seen|
    {
      if HasAccount(env, i) {
        accounts := accounts + [AccountAt(env, i)];
        KeysSoFarStep(i);
        seen := seen + {EmailKey(i)};
        SubsetCardinality(seen, env.Keys);
        i := i + 1;
      } else {
        break;
      }
    }
  }
}
