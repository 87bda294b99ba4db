/** Transaction notifications: after a transfer, the owners of the source
    and the target account each receive one e-mail describing it.

    Sending is not modelled; the operation returns the messages it would
    hand to the mail sender, in order. The locale-dependent date format and
    Java's rendering of a Double are parameters.
 */
module Notification {
  import opened Wrappers
  import opened Store
  import opened Ledger
  import opened Transactions

  datatype Mail = Mail(from: string, to: seq<string>, subject: string, text: string)

  /** How dates (FormatStyle.MEDIUM) and Doubles (`Double.toString`)
      appear in the text. */
  datatype Format = Format(date: int -> string, number: real -> string)

  const From: string := "bankingofficeapp@yahoo.com"
  const Subject: string := "Successful transaction notification"

  /** The greeting that opens every message. */
  function Greeting(name: string): (r: string)
    ensures |r| == |name| + 7
  {
    "Dear " + name + ",\n"
  }

  /** Everything after the greeting: the timestamp line, a blank line and
      six "\n"-terminated lines describing the transaction. */
  function Details(tx: Transaction, f: Format): string {
    "There was a successful transaction in our system at " + f.date(tx.date) + ".\n\n"
    + "Source Account: " + tx.sourceAccountNumber + "\n"
    + "Target Account: " + tx.targetAccountNumber + "\n"
    + "Amount: " + f.number(tx.amount) + "\n"
    + "Source currency: " + tx.sourceCurrency + "\n"
    + "Target currency: " + tx.targetCurrency + "\n"
    + "Exchange rate: " + f.number(tx.exchangeRate) + "\n"
  }

  function Body(name: string, tx: Transaction, f: Format): string {
    Greeting(name) + Details(tx, f)
  }

  /** Reads the addressee's name back out of a message body. */
  function GreetedName(text: string, tx: Transaction, f: Format): (r: Option<string>)
    ensures r.Some? ==> Body(r.value, tx, f) == text
  {
    var d := Details(tx, f);
    if |text| < |d| + 7 then None
    else
      var name := text[5..|text| - |d| - 2];
      if Body(name, tx, f) == text then Some(name) else None
  }

  /** The body determines the name: reading it back gives the name the
      message was composed for, so two messages about one transaction
      differ exactly when the names do. */
  lemma GreetedNameRoundTrip(name: string, tx: Transaction, f: Format)
    ensures GreetedName(Body(name, tx, f), tx, f) == Some(name)
  {
    var text := Body(name, tx, f);
    var d := Details(tx, f);
    assert text == "Dear " + name + ",\n" + d;
    assert text[5..|text| - |d| - 2] == name;
  }

  /** Two bodies about one transaction agree after the greeting, and are
      equal only when the names are. */
  lemma BodiesDifferOnlyInName(n1: string, n2: string, tx: Transaction, f: Format)
    ensures Body(n1, tx, f)[|Greeting(n1)|..] == Body(n2, tx, f)[|Greeting(n2)|..] == Details(tx, f)
    ensures Body(n1, tx, f) == Body(n2, tx, f) <==> n1 == n2
  {
    assert Body(n1, tx, f)[|Greeting(n1)|..] == Details(tx, f);
    assert Body(n2, tx, f)[|Greeting(n2)|..] == Details(tx, f);
    if Body(n1, tx, f) == Body(n2, tx, f) {
      GreetedNameRoundTrip(n1, tx, f);
      GreetedNameRoundTrip(n2, tx, f);
    }
  }

  /** `sendMail`: one recipient, the fixed sender and subject, and a text
      from which the addressee's name can be read back. */
  function Compose(name: string, address: string, tx: Transaction, f: Format): (r: Mail)
    ensures r.from == From && r.to == [address] && r.subject == Subject
    ensures GreetedName(r.text, tx, f) == Some(name)
    ensures r.text[|Greeting(name)|..] == Details(tx, f)
  {
    GreetedNameRoundTrip(name, tx, f);
    BodiesDifferOnlyInName(name, name, tx, f);
    Mail(From, [address], Subject, Body(name, tx, f))
  }

  /** `notifyClientsOnSuccess`: resolves the source account's owner, then
      the target account's, and only then composes two messages, source
      owner first. A lookup failure sends nothing. */
  function NotifyClientsOnSuccess(l: Accounts, tx: Transaction, f: Format): (r: Result<seq<Mail>>)
    ensures r.Ok? <==> GetAccountByAccountNumber(l, tx.sourceAccountNumber).Ok?
                       && GetAccountByAccountNumber(l, tx.targetAccountNumber).Ok?
    ensures tx.sourceAccountNumber !in Numbers(l) ==> r == Err(NotFound)
    ensures r.Ok? ==>
      var s := GetAccountByAccountNumber(l, tx.sourceAccountNumber).value.value.owner;
      var t := GetAccountByAccountNumber(l, tx.targetAccountNumber).value.value.owner;
      && |r.value| == 2
      && r.value[0].to == [s.email] && r.value[1].to == [t.email]
      && (forall i :: 0 <= i < 2 ==> r.value[i].from == From && r.value[i].subject == Subject)
      && r.value[0].text == Body(s.name, tx, f) && r.value[1].text == Body(t.name, tx, f)
  {
    var source :- GetAccountByAccountNumber(l, tx.sourceAccountNumber);
    var target :- GetAccountByAccountNumber(l, tx.targetAccountNumber);
    Ok([Compose(source.value.owner.name, source.value.owner.email, tx, f),
        Compose(target.value.owner.name, target.value.owner.email, tx, f)])
  }

  /** With distinct account numbers, notification fails exactly when one
      of the two numbers is not a local account, and then with NotFound. */
  lemma NotifyFailsIffUnknown(l: Accounts, tx: Transaction, f: Format)
    requires UniqueNumbers(l)
    ensures NotifyClientsOnSuccess(l, tx, f).Err? <==>
      tx.sourceAccountNumber !in Numbers(l) || tx.targetAccountNumber !in Numbers(l)
    ensures NotifyClientsOnSuccess(l, tx, f).Err? ==> NotifyClientsOnSuccess(l, tx, f).error == NotFound
  {
  }

  /** A client owning both accounts receives both messages, identical. */
  lemma SameOwnerTwice(l: Accounts, tx: Transaction, f: Format)
    requires NotifyClientsOnSuccess(l, tx, f).Ok?
    requires GetAccountByAccountNumber(l, tx.sourceAccountNumber).value.value.owner
             == GetAccountByAccountNumber(l, tx.targetAccountNumber).value.value.owner
    ensures var m := NotifyClientsOnSuccess(l, tx, f).value;
      m[0] == m[1] && |m| == 2
  {
  }
}
