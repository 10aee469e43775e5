/** The process-wide state of the mail bot (main.py:35-47) and the operations
    of the core that update it in place. */
module MailBot {
  import opened Wrappers
  import opened Accounts
  import opened Pool

  /** One row of the recipient list: address, name and real name. */
  datatype Recipient = Recipient(email: string, name: string, realName: string)

  /** A queued sending job: subject, body and the pause between messages in seconds. */
  datatype SendTask = SendTask(subject: string, body: string, interval: int)

  /** The job continue_task queues to pick up the previous run (main.py:260). */
  const ResumeTask: SendTask := SendTask("继续上次任务", "继续上次任务邮件", 5)

  /** The reply of continue_task, whatever it did (main.py:263). */
  const ContinueReply: string := "已加载上次未完成任务，可开始发送"

  class Bot {
    /** ACCOUNTS: loaded once at start-up and never reassigned. */
    const accounts: seq<Account>
    /** current_index: where the next rotation starts. */
    var currentIndex: nat
    /** account_usage: deliveries per sender address today. */
    var accountUsage: Usage
    /** last_reset_date: the day the counters were last zeroed. */
    var lastResetDate: Date
    /** RECIPIENTS and SENT_RECIPIENTS: pending and already-sent rows. */
    var recipients: seq<Recipient>
    var sentRecipients: seq<Recipient>
    /** SEND_QUEUE, IS_SENDING and PAUSED: the sending controls. */
    var sendQueue: seq<SendTask>
    var isSending: bool
    var paused: bool

    /** The cursor indexes the pool and there is one counter per address. */
    ghost predicate Valid()
      reads this
    {
      CursorOk(accounts, currentIndex) && accountUsage.Keys == EmailsOf(accounts)
    }

    /** Module start-up (main.py:35-47): accounts from the environment, cursor
        at the first account, every counter at zero, today as the reset date,
        and the recipient lists load_recipients read. */
    constructor (env: Env, today: Date, pending: seq<Recipient>, sent: seq<Recipient>)
      ensures Valid()
      ensures LoadedFrom(env, accounts)
      ensures currentIndex == 0 && lastResetDate == today
      ensures accountUsage.Keys == EmailsOf(accounts) && forall e :: e in accountUsage ==> accountUsage[e] == 0
      ensures WithinQuota(accountUsage)
      ensures recipients == pending && sentRecipients == sent
      ensures sendQueue == [] && !isSending && !paused
    {
      var loaded := LoadAccounts(env);
      accounts := loaded;
      currentIndex := 0;
      accountUsage := map e | e in EmailsOf(loaded) :: 0;
      lastResetDate := today;
      recipients := pending;
      sentRecipients := sent;
      sendQueue := [];
      isSending := false;
      paused := false;
    }

    /** reset_daily_usage with the clock reading `today` (main.py:50-55): on a
        new day every counter goes back to zero; on the same day nothing
        changes, so a second call with the same day is a no-op. */
    method ResetDailyUsage(today: Date)
      requires Valid()
      modifies this`accountUsage, this`lastResetDate
      ensures Valid()
      ensures (accountUsage, lastResetDate) == ResetIfNewDay(accounts, old(accountUsage), old(lastResetDate), today)
      ensures lastResetDate == today
      ensures old(lastResetDate) == today ==> accountUsage == old(accountUsage)
      ensures old(WithinQuota(accountUsage)) ==> WithinQuota(accountUsage)
    {
      if today != lastResetDate {
        accountUsage := map e | e in EmailsOf(accounts) :: 0;
        lastResetDate := today;
      }
    }

    /** get_next_account (main.py:57-64): looks at no more than every account
        once, starting at the cursor and moving it one place per account
        looked at, and returns the first one with quota left. */
    method GetNextAccount() returns (acc: Option<Account>, ghost examined: nat)
      requires Valid()
      modifies this`currentIndex
      ensures Valid()
      ensures (acc, currentIndex) == NextAccount(accounts, accountUsage, old(currentIndex))
      ensures examined <= |accounts|
      ensures acc.None? ==> examined == |accounts| && currentIndex == old(currentIndex)
      ensures acc.Some? ==> 1 <= examined
      ensures |accounts| > 0 ==> currentIndex == Wrap(old(currentIndex) + examined, |accounts|)
    {
      var n := |accounts|;
      ghost var start := currentIndex;
      examined := 0;
      for k := 0 to n
        invariant CursorOk(accounts, currentIndex)
        invariant examined == k
        invariant Search(accounts, accountUsage, currentIndex, n - k) == Search(accounts, accountUsage, start, n)
        invariant n > 0 ==> currentIndex == Wrap(start + k, n)
      {
        var a := accounts[currentIndex];
        StepMod(currentIndex, n);
        currentIndex := (currentIndex + 1) % n;
        examined := examined + 1;
        assert a.email in EmailsOf(accounts);
        if accountUsage[a.email] < DAILY_LIMIT {
          acc := Some(a);
          return;
        }
      }
      acc := None;
      NextAccountNone(accounts, accountUsage, start);
    }

    /** The bookkeeping of send_email (main.py:66-81) after the SMTP exchange
        whose outcome is `transport`: a delivery counts against the sender's
        address, by one, and reports `(true, "")`; otherwise no counter moves
        and the exception text is returned. */
    method SendEmail(account: Account, toEmail: string, subject: string, body: string, transport: Transport)
      returns (ok: bool, error: string)
      requires Valid()
      modifies this`accountUsage
      ensures Valid()
      ensures (ok, error, accountUsage) == RecordSend(old(accountUsage), account, transport)
      ensures ok <==> transport.Delivered? && account.email in EmailsOf(accounts)
      ensures account in accounts ==> (ok <==> transport.Delivered?)
      ensures old(WithinQuota(accountUsage)) && Eligible(old(accountUsage), account) ==> WithinQuota(accountUsage)
    {
      assert account in accounts ==> account.email in EmailsOf(accounts);
      match transport
      case Raised(e) =>
        ok, error := false, e;
      case Delivered =>
        if account.email in accountUsage {
          accountUsage := accountUsage[account.email := accountUsage[account.email] + 1];
          ok, error := true, "";
        } else {
          ok, error := false, KeyErrorText(account.email);
        }
    }

    /** continue_task (main.py:257-263): with recipients still pending it
        queues one resume job and marks sending on and not paused; with none
        it changes nothing. The reply is the same either way. */
    method ContinueTask() returns (reply: string)
      modifies this`sendQueue, this`isSending, this`paused
      ensures reply == ContinueReply
      ensures recipients != [] ==> sendQueue == old(sendQueue) + [ResumeTask] && isSending && !paused
      ensures recipients == [] ==> sendQueue == old(sendQueue) && isSending == old(isSending) && paused == old(paused)
    {
      if recipients != [] {
        sendQueue := sendQueue + [ResumeTask];
        isSending := true;
        paused := false;
      }
      reply := ContinueReply;
    }
  }
}
