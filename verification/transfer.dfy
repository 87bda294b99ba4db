/** The transfer engine: moving money from a ledger account to another
    account of the bank, or out of the bank to an IBAN.

    Each transfer reads its accounts, fetches one cross rate, checks funds
    and writes the new balances back through the ledger's existence-checked
    update; it returns the new ledger together with the unsaved transaction
    record. A failing transfer returns only its error, so no balance changes.

    The exchange service is injected as an interface, so the engine takes
    it as a parameter: `rates(from, to)` is what
    `getCurrentCurrencyToCurrencyRate(from, to)` yields (a null rate is one
    of its errors). `FeedRates` is the implementation backed by the
    central bank's feed.
 */
module Transfer {
  import opened Wrappers
  import opened Store
  import opened JavaNum
  import opened Ledger
  import opened Transactions
  import Exchange

  /** `getCurrentCurrencyToCurrencyRate(from, to)`. */
  type RateService = (string, string) -> Result<real>

  /** The feed-backed exchange service. */
  function FeedRates(soap: Exchange.SoapReply): RateService {
    (from: string, to: string) => Exchange.Rate(soap, from, to)
  }

  /** A successful transfer: the ledger after it and the record to store. */
  datatype Outcome = Outcome(ledger: Accounts, tx: Transaction)

  /** The record of an internal transfer: both accounts' numbers and
      currencies, the amount as requested and the rate used; the date is
      the construction time. */
  function BuildInternal(source: Account, target: Account, amount: real, rate: real, now: int): (r: Transaction)
    ensures ValidTransaction(r) <==>
      (AccountNumberText(source.number) && AccountNumberText(target.number)
       && CurrencyCode(source.currency) && CurrencyCode(target.currency) && amount > 0.0)
    ensures r.amount == amount && r.exchangeRate == rate && r.date == now
  {
    Transaction(source.number, target.number, source.currency, target.currency, now, amount, rate)
  }

  /** The record of an external transfer: the IBAN and the caller's
      currency stand in for the target account. */
  function BuildExternal(source: Account, iban: string, currency: string, amount: real, rate: real, now: int): (r: Transaction)
    ensures ValidTransaction(r) <==>
      (AccountNumberText(source.number) && AccountNumberText(iban)
       && CurrencyCode(source.currency) && CurrencyCode(currency) && amount > 0.0)
    ensures r.amount == amount && r.exchangeRate == rate && r.date == now
  {
    Transaction(source.number, iban, source.currency, currency, now, amount, rate)
  }

  /** `transferMoneyWithinTheBank`: `amount` is in the target account's
      currency; the source pays `amount` converted into its own currency. */
  function TransferWithinBank(l: Accounts, rates: RateService, now: int, senderId: int, target: string, amount: real)
    : (r: Result<Outcome>)
    ensures senderId !in l.rows ==> r == Err(NotFound)
    ensures senderId in l.rows && l.rows[senderId].number == target ==> r == Err(BadResource)
    ensures senderId in l.rows && l.rows[senderId].number != target && target !in Numbers(l) ==> r == Err(NotFound)
    ensures senderId in l.rows && l.rows[senderId].number != target ==>
      var t := GetAccountByAccountNumber(l, target);
      && (t.Err? ==> r == Err(t.error))
      && (t.Ok? ==>
            var x := rates(t.value.value.currency, l.rows[senderId].currency);
            && (x.Err? ==> r == Err(x.error))
            && (x.Ok? ==> (r.Ok? <==> amount * x.value <= l.rows[senderId].balance as real))
            && (x.Ok? && r.Err? ==> r.error == BadResource))
    ensures r.Ok? ==> senderId in l.rows && l.rows[senderId].number != target && GetAccountByAccountNumber(l, target).Ok?
    ensures r.Ok? ==>
      var s := l.rows[senderId];
      var t := GetAccountByAccountNumber(l, target).value;
      var x := rates(t.value.currency, s.currency);
      && x.Ok? && amount * x.value <= s.balance as real
      && t.id != senderId
      && r.value.ledger.rows.Keys == l.rows.Keys
      && r.value.ledger.nextId == l.nextId
      && (forall k :: k in l.rows && k != senderId && k != t.id ==> r.value.ledger.rows[k] == l.rows[k])
      && r.value.ledger.rows[senderId] == s.(balance := Trunc(s.balance as real - amount * x.value))
      && r.value.ledger.rows[t.id] == t.value.(balance := Trunc(t.value.balance as real + amount))
      && r.value.tx == Transaction(s.number, target, s.currency, t.value.currency, now, amount, x.value)
  {
    var sender :- Get(l, senderId);
    if sender.value.number == target then Err(BadResource)
    else
      var receiver :- GetAccountByAccountNumber(l, target);
      var rate :- rates(receiver.value.currency, sender.value.currency);
      var converted := amount * rate;
      if converted > sender.value.balance as real then Err(BadResource)
      else
        var debited := sender.value.(balance := Trunc(sender.value.balance as real - converted));
        var afterDebit := Update(l, Some(senderId), debited).value;
        var credited := receiver.value.(balance := Trunc(receiver.value.balance as real + amount));
        var afterCredit := Update(afterDebit, Some(receiver.id), credited).value;
        Ok(Outcome(afterCredit, BuildInternal(debited, credited, amount, rate, now)))
  }

  /** `transferMoneyToAnotherBank`: the funds check compares the raw
      amount with the balance before any rate is fetched; the source is
      then debited by the amount times the rate from its currency to the
      target currency. No other account is touched. */
  function TransferToAnotherBank(l: Accounts, rates: RateService, now: int, senderId: int, iban: string, amount: real, currency: string)
    : (r: Result<Outcome>)
    ensures senderId !in l.rows ==> r == Err(NotFound)
    ensures senderId in l.rows && amount > l.rows[senderId].balance as real ==> r == Err(BadResource)
    ensures senderId in l.rows && amount <= l.rows[senderId].balance as real ==>
      var x := rates(l.rows[senderId].currency, currency);
      && (r.Ok? <==> x.Ok?)
      && (x.Err? ==> r == Err(x.error))
    ensures r.Ok? ==>
      var s := l.rows[senderId];
      var x := rates(s.currency, currency);
      && senderId in l.rows && amount <= s.balance as real && x.Ok?
      && r.value.ledger.rows == l.rows[senderId := s.(balance := Trunc(s.balance as real - amount * x.value))]
      && r.value.ledger.nextId == l.nextId
      && r.value.tx == Transaction(s.number, iban, s.currency, currency, now, amount, x.value)
  {
    var sender :- Get(l, senderId);
    if amount > sender.value.balance as real then Err(BadResource)
    else
      var rate :- rates(sender.value.currency, currency);
      var debited := sender.value.(balance := Trunc(sender.value.balance as real - amount * rate));
      var afterDebit := Update(l, Some(senderId), debited).value;
      assert Trunc(sender.value.balance as real - amount * rate)
        == Trunc(l.rows[senderId].balance as real - amount * rates(l.rows[senderId].currency, currency).value);
      Ok(Outcome(afterDebit, BuildExternal(debited, iban, currency, amount, rate, now)))
  }

  /** Once both accounts and the rate are known, an internal transfer
      fails exactly when the converted amount exceeds the source balance —
      an amount equal to the balance passes — and the failure is
      BadResource. */
  lemma InternalFundsCheck(l: Accounts, rates: RateService, now: int, senderId: int, target: string, amount: real)
    requires senderId in l.rows && l.rows[senderId].number != target
    requires GetAccountByAccountNumber(l, target).Ok?
    requires rates(GetAccountByAccountNumber(l, target).value.value.currency, l.rows[senderId].currency).Ok?
    ensures var x := rates(GetAccountByAccountNumber(l, target).value.value.currency, l.rows[senderId].currency).value;
      var r := TransferWithinBank(l, rates, now, senderId, target, amount);
      && (r.Ok? <==> amount * x <= l.rows[senderId].balance as real)
      && (r.Err? ==> r.error == BadResource)
  {
    var t := GetAccountByAccountNumber(l, target).value;
    assert t.id in l.rows && t.id != senderId;
  }

  /** A successful internal transfer never leaves the source negative and,
      for a non-negative amount, never lowers the target balance. */
  lemma InternalBalances(l: Accounts, rates: RateService, now: int, senderId: int, target: string, amount: real)
    requires TransferWithinBank(l, rates, now, senderId, target, amount).Ok?
    ensures var o := TransferWithinBank(l, rates, now, senderId, target, amount).value;
      var t := GetAccountByAccountNumber(l, target).value.id;
      && 0 <= o.ledger.rows[senderId].balance
      && (0.0 <= amount ==> l.rows[t].balance <= o.ledger.rows[t].balance)
  {
    var o := TransferWithinBank(l, rates, now, senderId, target, amount).value;
    var t := GetAccountByAccountNumber(l, target).value;
    if 0.0 <= amount {
      TruncAddNonNegative(t.value.balance, amount);
    }
  }

  /** Transfers never renumber accounts: the set of numbers, and with it
      their distinctness, survives every successful transfer. */
  lemma TransfersKeepNumbers(l: Accounts, rates: RateService, now: int, senderId: int, target: string, iban: string, amount: real, currency: string)
    ensures TransferWithinBank(l, rates, now, senderId, target, amount).Ok? ==>
      var o := TransferWithinBank(l, rates, now, senderId, target, amount).value;
      Numbers(o.ledger) == Numbers(l) && (UniqueNumbers(l) ==> UniqueNumbers(o.ledger))
    ensures TransferToAnotherBank(l, rates, now, senderId, iban, amount, currency).Ok? ==>
      var o := TransferToAnotherBank(l, rates, now, senderId, iban, amount, currency).value;
      Numbers(o.ledger) == Numbers(l) && (UniqueNumbers(l) ==> UniqueNumbers(o.ledger))
  {
    var r := TransferWithinBank(l, rates, now, senderId, target, amount);
    if r.Ok? {
      SameNumbers(l, r.value.ledger);
    }
    var e := TransferToAnotherBank(l, rates, now, senderId, iban, amount, currency);
    if e.Ok? {
      SameNumbers(l, e.value.ledger);
    }
  }

  /** Two ledgers over the same keys whose accounts carry the same numbers
      have the same numbers in use and the same distinctness. */
  lemma SameNumbers(l: Accounts, m: Accounts)
    requires l.rows.Keys == m.rows.Keys
    requires forall k :: k in l.rows ==> m.rows[k].number == l.rows[k].number
    ensures Numbers(m) == Numbers(l)
    ensures UniqueNumbers(l) ==> UniqueNumbers(m)
  {
    forall n | n in Numbers(l)
      ensures n in Numbers(m)
    {
      var k :| k in l.rows && l.rows[k].number == n;
      assert m.rows[k].number == n;
    }
    forall n | n in Numbers(m)
      ensures n in Numbers(l)
    {
      var k :| k in m.rows && m.rows[k].number == n;
      assert l.rows[k].number == n;
    }
  }

  /** Whether an external transfer is refused for lack of funds does not
      depend on the exchange service: the check runs before the rate is
      fetched, so two services give the same refusal. */
  lemma ExternalCheckPrecedesRate(l: Accounts, r1: RateService, r2: RateService, now: int, senderId: int, iban: string, amount: real, currency: string)
    requires senderId !in l.rows || amount > l.rows[senderId].balance as real
    ensures TransferToAnotherBank(l, r1, now, senderId, iban, amount, currency)
            == TransferToAnotherBank(l, r2, now, senderId, iban, amount, currency)
  {
  }

  /** The external check does not protect the balance: with a rate above
      one, the whole balance passes the check and the debit drives the
      account negative. */
  lemma ExternalCanOverdraw(c: Clients.Client, rates: RateService, now: int)
    requires rates("EUR", "HUF") == Ok(2.0)
    ensures var l := Table(map[1 := Account("A1", "EUR", 1000, c)], 2);
      var r := TransferToAnotherBank(l, rates, now, 1, "HU42117730161111101800000000", 1000.0, "HUF");
      r.Ok? && r.value.ledger.rows[1].balance == -1000
  {
    var l := Table(map[1 := Account("A1", "EUR", 1000, c)], 2);
    assert 1000.0 * 2.0 == 2000.0;
    TruncOfInt(-1000);
    assert (1000 as real) - 2000.0 == (-1000) as real;
  }

  /** The internal example of the service's documentation: a HUF account
      holding 1000 pays 2 dollars to a USD account holding 2000, at 300
      forints per dollar; the source ends at 400 and the target at 2002. */
  lemma InternalExample(c1: Clients.Client, c2: Clients.Client, rates: RateService, now: int)
    requires rates("USD", "HUF") == Ok(300.0)
    ensures var l := Table(map[5 := Account("112233445566778899112233", "HUF", 1000, c1),
                               2 := Account("112233445566778811223344", "USD", 2000, c2)], 6);
      var r := TransferWithinBank(l, rates, now, 5, "112233445566778811223344", 2.0);
      && r.Ok?
      && r.value.ledger.rows[5].balance == 400
      && r.value.ledger.rows[2].balance == 2002
      && r.value.tx.amount == 2.0 && r.value.tx.exchangeRate == 300.0
  {
    var l := Table(map[5 := Account("112233445566778899112233", "HUF", 1000, c1),
                       2 := Account("112233445566778811223344", "USD", 2000, c2)], 6);
    assert "112233445566778899112233"[22] != "112233445566778811223344"[22];
    assert UniqueNumbers(l);
    LookupFindsHolder(l, 2);
    TruncOfInt(400);
    TruncOfInt(2002);
    assert (1000 as real) - 2.0 * 300.0 == 400 as real;
    assert (2000 as real) + 2.0 == 2002 as real;
  }

  /** The external example, as the code computes it: the same HUF account
      sends 2 to a USD IBAN. The debit is 2 times the HUF-to-USD rate, a
      fraction of a forint, so the balance drops to 999 rather than the
      400 the documentation expects. */
  lemma ExternalExample(c: Clients.Client, rates: RateService, now: int)
    requires rates("HUF", "USD") == Ok(1.0 / 300.0)
    ensures var l := Table(map[5 := Account("112233445566778899112233", "HUF", 1000, c)], 6);
      var r := TransferToAnotherBank(l, rates, now, 5, "HU12345678910111213456524", 2.0, "USD");
      r.Ok? && r.value.ledger.rows[5].balance == 999
  {
    assert 2.0 * (1.0 / 300.0) == 1.0 / 150.0;
  }

  /** With the feed-backed service, a transfer between forint accounts
      moves money one for one whatever the feed says, since the forint's
      rate against itself is 1 without consulting the feed. */
  lemma FeedForintTransfer(soap: Exchange.SoapReply, l: Accounts, now: int, senderId: int, target: string, amount: real)
    requires senderId in l.rows && l.rows[senderId].number != target
    requires GetAccountByAccountNumber(l, target).Ok?
    requires l.rows[senderId].currency == "HUF" && GetAccountByAccountNumber(l, target).value.value.currency == "HUF"
    ensures var r := TransferWithinBank(l, FeedRates(soap), now, senderId, target, amount);
      && (r.Ok? <==> amount <= l.rows[senderId].balance as real)
      && (r.Ok? ==> r.value.ledger.rows[senderId].balance == Trunc(l.rows[senderId].balance as real - amount)
                    && r.value.tx.exchangeRate == 1.0)
  {
    assert FeedRates(soap)("HUF", "HUF") == Ok(1.0);
  }

  /** When the feed faults, the missing rate stops every internal transfer
      that involves a currency other than the forint with NullPointer,
      before any balance is written. */
  lemma FeedFaultStopsTransfer(l: Accounts, now: int, senderId: int, target: string, amount: real)
    requires senderId in l.rows && l.rows[senderId].number != target
    requires GetAccountByAccountNumber(l, target).Ok?
    requires l.rows[senderId].currency != "HUF" || GetAccountByAccountNumber(l, target).value.value.currency != "HUF"
    ensures TransferWithinBank(l, FeedRates(Exchange.Fault), now, senderId, target, amount) == Err(NullPointer)
  {
    var t := GetAccountByAccountNumber(l, target).value;
    assert FeedRates(Exchange.Fault)(t.value.currency, l.rows[senderId].currency) == Err(NullPointer);
  }
}
