/** What happens around a transfer: the post-transfer advice that records
    the returned transaction and then notifies both owners, and a whole
    transfer request from a validated body to its stored effects.

    The advice runs only after a transfer returns normally. It saves the
    record first; if saving throws, nobody is notified; if notification
    throws, the record stays saved. The transfer's own balance changes are
    kept whatever the advice does.
 */
module Hook {
  import opened Wrappers
  import opened Text
  import opened Store
  import opened Ledger
  import opened Transactions
  import opened Transfer
  import opened Notification
  import opened Dtos

  /** What the advice leaves behind: the transaction store, the mails
      handed to the sender, and the exception that ended it, if any. */
  datatype Effects = Effects(transactions: Table<Transaction>, mails: seq<Mail>, error: Option<Error>)

  /** `afterTransferMoneyAdvice(result)`: `createTransaction(result)`,
      then `notifyClientsOnSuccess(result)`. `id` is the record's id,
      null for a record built by a transfer. */
  function AfterTransferMoneyAdvice(txs: Table<Transaction>, l: Accounts, id: Option<int>, result: Transaction, f: Format)
    : (r: Effects)
    ensures Create(txs, id, result).Err? ==> r == Effects(txs, [], Some(AlreadyExists))
    ensures Create(txs, id, result).Ok? ==> r.transactions == Create(txs, id, result).value.table
    ensures Create(txs, id, result).Ok? ==>
      (r.error.None? <==> NotifyClientsOnSuccess(l, result, f).Ok?)
    ensures r.error.None? ==> r.mails == NotifyClientsOnSuccess(l, result, f).value && |r.mails| == 2
    ensures r.error.Some? ==> r.mails == []
  {
    match Create(txs, id, result)
    case Err(e) => Effects(txs, [], Some(e))
    case Ok(saved) =>
      match NotifyClientsOnSuccess(l, result, f)
      case Err(e) => Effects(saved.table, [], Some(e))
      case Ok(mails) => Effects(saved.table, mails, None)
  }

  /** The bank's persistent state. */
  datatype Bank = Bank(accounts: Accounts, transactions: Table<Transaction>)

  /** A transfer request as the two endpoints receive it, body validated. */
  datatype Request =
    | Internal(senderId: int, body: TransferDto)
    | External(senderId: int, ibanBody: IbanTransferDto)

  /** The result of a request: the state after it, the mails sent and the
      exception it ended with, if any. */
  datatype Response = Response(bank: Bank, mails: seq<Mail>, error: Option<Error>)

  /** A body that passes its constraints. */
  predicate Accepted(q: Request) {
    match q
    case Internal(_, d) => TransferViolations(d) == {}
    case External(_, d) => IbanTransferViolations(d) == {}
  }

  /** The transfer a validated request calls. Validation is what makes
      the recorded amount positive. */
  function RunTransfer(b: Bank, rates: RateService, now: int, q: Request): (r: Result<Outcome>)
    requires Accepted(q)
    ensures q.Internal? ==> r == TransferWithinBank(b.accounts, rates, now, q.senderId,
      q.body.targetAccountNumber.value, q.body.amount.value)
    ensures q.External? ==> r == TransferToAnotherBank(b.accounts, rates, now, q.senderId,
      q.ibanBody.targetAccountIban.value, q.ibanBody.amount.value, q.ibanBody.currency.value)
    ensures r.Ok? ==> r.value.tx.amount > 0.0 && r.value.tx.date == now
  {
    assert q.Internal? ==> TargetField !in TransferViolations(q.body) && AmountField !in TransferViolations(q.body);
    assert q.External? ==>
      (TargetField !in IbanTransferViolations(q.ibanBody)
       && AmountField !in IbanTransferViolations(q.ibanBody) && CurrencyField !in IbanTransferViolations(q.ibanBody));
    match q
    case Internal(sid, d) => TransferWithinBank(b.accounts, rates, now, sid, d.targetAccountNumber.value, d.amount.value)
    case External(sid, d) =>
      TransferToAnotherBank(b.accounts, rates, now, sid, d.targetAccountIban.value, d.amount.value, d.currency.value)
  }

  /** A whole request: a body that fails validation is refused with
      NotValid before anything runs; a transfer that throws leaves
      the bank as it was and sends nothing; otherwise the new ledger stands
      and the advice records the transfer under a fresh key, then
      notifies. */
  function Execute(b: Bank, rates: RateService, now: int, q: Request, f: Format): (r: Response)
    ensures !Accepted(q) ==> r == Response(b, [], Some(NotValid))
    ensures Accepted(q) && RunTransfer(b, rates, now, q).Err? ==>
      r == Response(b, [], Some(RunTransfer(b, rates, now, q).error))
    ensures Accepted(q) && RunTransfer(b, rates, now, q).Ok? ==>
      var o := RunTransfer(b, rates, now, q).value;
      && r.bank.accounts == o.ledger
      && r.bank.transactions == Create(b.transactions, None, o.tx).value.table
      && (r.error.None? <==> NotifyClientsOnSuccess(o.ledger, o.tx, f).Ok?)
      && (r.error.None? ==> r.mails == NotifyClientsOnSuccess(o.ledger, o.tx, f).value)
      && (r.error.Some? ==> r.mails == [] && r.error == Some(NotifyClientsOnSuccess(o.ledger, o.tx, f).error))
    ensures r.mails != [] ==> r.error.None? && |r.mails| == 2
  {
    if !Accepted(q) then
      Response(b, [], Some(NotValid))
    else
      match RunTransfer(b, rates, now, q)
      case Err(e) => Response(b, [], Some(e))
      case Ok(o) =>
        var effects := AfterTransferMoneyAdvice(b.transactions, o.ledger, None, o.tx, f);
        Response(Bank(o.ledger, effects.transactions), effects.mails, effects.error)
  }

  /** A successful internal transfer on a ledger with distinct numbers is
      recorded under a fresh key, exactly as returned, and both owners are
      notified: the source owner first. */
  lemma InternalSuccessNotifies(b: Bank, rates: RateService, now: int, q: Request, f: Format)
    requires q.Internal? && Accepted(q)
    requires UniqueNumbers(b.accounts) && Valid(b.transactions)
    requires RunTransfer(b, rates, now, q).Ok?
    ensures var r := Execute(b, rates, now, q, f);
      var o := RunTransfer(b, rates, now, q).value;
      && r.error.None? && |r.mails| == 2
      && r.bank.accounts == o.ledger
      && r.mails[0].to == [o.ledger.rows[q.senderId].owner.email]
      && (exists k :: k !in b.transactions.rows && r.bank.transactions.rows == b.transactions.rows[k := o.tx])
  {
    var l := b.accounts;
    var d := q.body;
    var o := RunTransfer(b, rates, now, q).value;
    TransfersKeepNumbers(l, rates, now, q.senderId, d.targetAccountNumber.value, "", d.amount.value, "");
    var s := l.rows[q.senderId];
    assert o.ledger.rows[q.senderId].number == s.number;
    assert s.number in Numbers(o.ledger);
    var t := GetAccountByAccountNumber(l, d.targetAccountNumber.value).value;
    assert o.ledger.rows[t.id].number == d.targetAccountNumber.value;
    assert d.targetAccountNumber.value in Numbers(o.ledger);
    LookupFindsHolder(o.ledger, q.senderId);
    var saved := Create(b.transactions, None, o.tx).value;
    assert saved.row.id !in b.transactions.rows;
  }

  /** An external transfer's target is an IBAN. When it is not also a
      local account number, the record is saved and then notification
      fails with NotFound, so nobody is told — although the money has
      left the source account. */
  lemma ExternalRecordedButNotNotified(b: Bank, rates: RateService, now: int, q: Request, f: Format)
    requires q.External? && Accepted(q)
    requires UniqueNumbers(b.accounts)
    requires q.ibanBody.targetAccountIban.value !in Numbers(b.accounts)
    requires RunTransfer(b, rates, now, q).Ok?
    ensures var r := Execute(b, rates, now, q, f);
      var o := RunTransfer(b, rates, now, q).value;
      && r.error == Some(NotFound) && r.mails == []
      && r.bank.accounts == o.ledger
      && r.bank.transactions == Create(b.transactions, None, o.tx).value.table
  {
    var l := b.accounts;
    var d := q.ibanBody;
    var o := RunTransfer(b, rates, now, q).value;
    TransfersKeepNumbers(l, rates, now, q.senderId, "", d.targetAccountIban.value, d.amount.value, d.currency.value);
    assert o.tx.targetAccountNumber !in Numbers(o.ledger);
    LookupFindsHolder(o.ledger, q.senderId);
  }

  /** The account fields the transaction record copies, valid as the
      record requires them. */
  predicate RecordableAccount(a: Account) {
    AccountNumberText(a.number) && CurrencyCode(a.currency)
  }

  /** The record of an accepted request satisfies the transaction
      constraints, given accounts whose number and currency do: the
      validated amount is positive, an IBAN fits the number column and the
      validated currency has three characters. */
  lemma RecordIsValid(b: Bank, rates: RateService, now: int, q: Request)
    requires Accepted(q)
    requires forall k :: k in b.accounts.rows ==> RecordableAccount(b.accounts.rows[k])
    requires RunTransfer(b, rates, now, q).Ok?
    ensures ValidTransaction(RunTransfer(b, rates, now, q).value.tx)
  {
    var l := b.accounts;
    if q.Internal? {
      assert AmountField !in TransferViolations(q.body);
      var t := GetAccountByAccountNumber(l, q.body.targetAccountNumber.value).value;
      assert RecordableAccount(l.rows[t.id]);
    } else {
      AcceptedIbanTransfer(q.ibanBody);
    }
  }
}
