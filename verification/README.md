# Banking back office: transfers, ledger and exchange rates in Dafny

A model of the core of a Spring back-office service for a bank. The service keeps
customers, branches, employees, accounts and transactions in keyed stores, moves money
between accounts of the bank or out to an IBAN, prices cross-currency transfers from the
Hungarian central bank's forint (HUF) exchange-rate feed, records each transfer and
e-mails both account owners.

Everything is modelled as pure functions over immutable values returning a `Result`
whose error is the kind of exception the service would throw. A failing operation
returns only its error, so "a failure leaves the state unchanged" holds by construction.

| module | file | what it models |
|---|---|---|
| `Wrappers` | wrappers.dfy | `Option`, `Result` and the exception kinds |
| `Text` | text.dfy | the `String` operations used: `contains`, `indexOf`, literal `split`, `replace`, `trim`, blankness |
| `Decimal` | decimal.dfy | `Double.parseDouble` on plain decimal numerals |
| `JavaNum` | javanum.dfy | the `(long)` cast of a double (truncation toward zero) |
| `Store` | store.dfy | the keyed table with existence-checked get / create / update / remove shared by every CRUD service (clients, branches, employees, accounts, transactions) |
| `Clients` | clients.dfy | the client record, its validation constraints and the clientID substring search |
| `Ledger` | ledger.dfy | accounts, lookup by number, the number collision-retry loop of account creation, and the distinct-numbers invariant |
| `Exchange` | exchange.dfy | HUF rates parsed from the feed text, cross rate and conversion |
| `Transactions` | transactions.dfy | the transaction record, its constraints and the 90-day windowed queries |
| `Transfer` | transfer.dfy | internal and external transfers |
| `Notification` | notification.dfy | composing the two notification mails |
| `Dtos` | dtos.dfy | the transfer request bodies and their validation, including the IBAN pattern |
| `Hook` | hook.dfy | the post-transfer advice (record, then notify) and a whole transfer request |

Modelling choices:

- A store is a `map<int, T>` plus `nextId`, the identity column's next value. A save with a
  null id gets a key no stored row has.
- Java `Double` is `real` and `Long` is `int`. The `(long)` cast is `JavaNum.Trunc`.
  A division by zero, which in Java gives Infinity or NaN, is the error `NonFinite`.
- The SOAP call is an input: the feed text, or a fault (`Exchange.SoapReply`).
- The transfer engine depends on the exchange-service interface, so it takes the
  cross-rate function as a parameter (`Transfer.RateService`). `Transfer.FeedRates` is the
  feed-backed implementation, and the `Feed…` lemmas of `Transfer` use it.
- `Account.generateAccountNumber` is a function from the call count to a number. The clock
  ("now", in nanoseconds; days for birth dates), the date format and `Double.toString` are
  parameters as well.
- `findByAccountNumber` returns an `Optional`. The model answers NotFound when no account
  holds the number and NonUniqueResult when several do. Under the distinct-numbers
  invariant the second case cannot happen (`Ledger.GetAccountByAccountNumber`).

Where the code and the documented examples disagree, the model follows the code:

- The external transfer checks the raw amount against the balance. It then debits
  amount × rate(source currency → target currency), which is the amount in the *target*
  currency. For a HUF account of 1000 that sends 2 to a USD IBAN at 300 HUF per dollar,
  the debit is 2/300 forint, so the balance becomes 999 (`Transfer.ExternalExample`).
  The unit test for this case asserts 400. Its mock stubs only
  `fromCurrencyToCurrencyConversion`, a method the transfer does not call, so the figure
  it asserts is not what the code computes.
- The internal transfer converts with rate(target currency → source currency). So the
  source pays the amount converted into its own currency. With the rate the test's
  figures imply (300 forints per dollar), the code gives the balances the unit test
  asserts, 400 and 2002 (`Transfer.InternalExample`). That test's mock also stubs only
  the conversion method, so it does not supply this rate itself.

## Model

| member | source | states |
|---|---|---|
| Store.Get | src/main/java/com/greenfoxacademy/bankingbackofficebackendservice/services/AccountServiceImpl.java:23-29 | `getAccountById` (and likewise `getClientById`, `getBranchById`, `getEmployeeById`): the stored entity under exactly that key, or NotFound precisely when the key is absent |
| Store.Create | src/main/java/com/greenfoxacademy/bankingbackofficebackendservice/services/ClientService.java:35-44 | `createClient`: fails (AlreadyExists) iff a non-null id is already stored; a null id is never refused; on success the table gains exactly that row, under the given id when there is one, and a fresh key never collides with a stored one |
| Store.Update | src/main/java/com/greenfoxacademy/bankingbackofficebackendservice/services/AccountServiceImpl.java:44-52 | `updateAccount`: fails with NotFound iff the id is null or absent; otherwise exactly that entry is replaced, keys and identity counter unchanged |
| Store.Remove | src/main/java/com/greenfoxacademy/bankingbackofficebackendservice/services/AccountServiceImpl.java:54-61 | `removeAccount` (and likewise `removeClient`, `removeBranch`, `removeEmployee`): fails with NotFound iff the id is absent; otherwise only that key disappears and every other entry is untouched |
| Store.GetAfterCreate | src/main/java/com/greenfoxacademy/bankingbackofficebackendservice/services/BranchService.java:19-28 | after `createBranch` the new branch reads back under its key and every other key reads as before |
| Store.GetAfterUpdate | src/main/java/com/greenfoxacademy/bankingbackofficebackendservice/services/BranchService.java:30-38 | after `updateBranch` the id reads back as the new value and every other key reads as before |
| Store.GetAfterRemove | src/main/java/com/greenfoxacademy/bankingbackofficebackendservice/services/BranchService.java:51-58 | after `removeBranch` `getBranchById` answers NotFound for that id and every other key reads as before |
| Store.RemoveUndoesCreate | src/main/java/com/greenfoxacademy/bankingbackofficebackendservice/services/EmployeeServiceImpl.java:30-60 | removing the employee just created restores the original rows (create and remove are inverse) |
| Store.UpdateAbsorbs | src/main/java/com/greenfoxacademy/bankingbackofficebackendservice/services/ClientService.java:46-54 | updating with the stored value is a no-op, and two updates of one id equal the later one alone |
| Clients.PhonePatternIff | src/main/java/com/greenfoxacademy/bankingbackofficebackendservice/models/Client.java:53-57 | the phone pattern accepts exactly `+` followed by one or more decimal digits |
| Clients.Violations | src/main/java/com/greenfoxacademy/bankingbackofficebackendservice/models/Client.java:35-74 | each field constraint is violated exactly when its rule fails: non-blank and at most 255 characters for clientID, name, e-mail, address and pin (for the e-mail only these two; its @Email format is not modelled), the phone pattern, a birth date strictly before today |
| Clients.ValidClientFacts | src/main/java/com/greenfoxacademy/bankingbackofficebackendservice/models/Client.java:53-69 | a valid client has a pattern-conforming phone of at least two characters, was born before today, and stays valid on any later day |
| Clients.FindByClientId | src/main/java/com/greenfoxacademy/bankingbackofficebackendservice/services/ClientService.java:31-33 | `findByClientId(q)` returns exactly the stored clients whose clientID contains `q`, each unchanged |
| Clients.FindByClientIdSearch | src/main/java/com/greenfoxacademy/bankingbackofficebackendservice/repositories/ClientRepository.java:10 | the empty query returns every client, each client is found by its own clientID, and a narrower query (one containing `q`) never returns more |
| Ledger.GetAccountByAccountNumber | src/main/java/com/greenfoxacademy/bankingbackofficebackendservice/services/AccountServiceImpl.java:63-67 | returns an account stored under the returned id with that number; NotFound exactly when no account holds the number; with distinct numbers it succeeds exactly when the number is in use |
| Ledger.LookupFindsHolder | src/main/java/com/greenfoxacademy/bankingbackofficebackendservice/services/AccountServiceImpl.java:63-67 | with distinct numbers, looking an account up by its own number returns that account and id |
| Ledger.HoldersAtMostOne | src/main/java/com/greenfoxacademy/bankingbackofficebackendservice/repositories/AccountRepository.java:16 | with distinct numbers, at most one account holds any number, so the single-result query never sees two |
| Ledger.CreateAccount | src/main/java/com/greenfoxacademy/bankingbackofficebackendservice/services/AccountServiceImpl.java:31-42 | fails iff a non-null stored id is given; otherwise the saved number is the first candidate (own number, then generator outputs) not in use, every earlier candidate was in use, the ledger gains exactly that account, and distinct numbers stay distinct |
| Ledger.CreateKeepsUnique | src/main/java/com/greenfoxacademy/bankingbackofficebackendservice/services/AccountServiceImpl.java:38-41 | saving under a fresh key with a number nobody holds keeps account numbers pairwise distinct |
| Ledger.UpdateKeepsUnique | src/main/java/com/greenfoxacademy/bankingbackofficebackendservice/services/AccountServiceImpl.java:44-52 | an update keeps numbers distinct when no other account holds the new number; the numbers in use change by exactly old out, new in |
| Ledger.UpdateSameNumber | src/main/java/com/greenfoxacademy/bankingbackofficebackendservice/services/AccountServiceImpl.java:44-52 | an update that keeps the account's number keeps the set of numbers and their distinctness |
| Ledger.UpdateCanDuplicate | src/main/java/com/greenfoxacademy/bankingbackofficebackendservice/services/AccountServiceImpl.java:44-52 | giving an account another account's number breaks distinctness: update does not re-check numbers |
| Ledger.RemoveKeepsUnique | src/main/java/com/greenfoxacademy/bankingbackofficebackendservice/services/AccountServiceImpl.java:54-61 | removal keeps numbers distinct and frees exactly the removed account's number |
| Text.IndexOf | src/main/java/com/greenfoxacademy/bankingbackofficebackendservice/services/DefaultExchangeService.java:49 | the first occurrence of the pattern at or after the start, or none at all |
| Text.Split | src/main/java/com/greenfoxacademy/bankingbackofficebackendservice/services/DefaultExchangeService.java:48 | no piece contains the separator, and an input without the separator comes back whole |
| Text.JoinPieces | src/main/java/com/greenfoxacademy/bankingbackofficebackendservice/services/DefaultExchangeService.java:48 | joining the raw pieces (before `split` drops the trailing empty ones) with the separator gives back the input, so the cutting loses nothing but separators |
| Text.SplitContains | src/main/java/com/greenfoxacademy/bankingbackofficebackendservice/services/DefaultExchangeService.java:48-49 | a piece of the split contains only text the input contains |
| Text.ReplaceChar | src/main/java/com/greenfoxacademy/bankingbackofficebackendservice/services/DefaultExchangeService.java:55 | same length, each comma becomes a point and every other character is kept |
| Text.Trim | src/main/java/com/greenfoxacademy/bankingbackofficebackendservice/services/DefaultExchangeService.java:56 | the trimmed text has no character up to the space at either end, and text without one at either end is returned unchanged |
| Text.TrimIsSlice | src/main/java/com/greenfoxacademy/bankingbackofficebackendservice/services/DefaultExchangeService.java:56 | what `trim` removes: the result is a slice of the input and every character outside it is at most a space |
| Decimal.ParseDouble | src/main/java/com/greenfoxacademy/bankingbackofficebackendservice/services/DefaultExchangeService.java:56 | a parse succeeds only on text that is not blank after trimming; when it succeeds, and with which value, is given by the lemmas below |
| Decimal.ParseNumeral | src/main/java/com/greenfoxacademy/bankingbackofficebackendservice/services/DefaultExchangeService.java:56 | round trip: whole digits, a point and fraction digits parse to the value the digits denote |
| Decimal.ParseWholeNumeral | src/main/java/com/greenfoxacademy/bankingbackofficebackendservice/services/DefaultExchangeService.java:56 | round trip for a numeral without a point |
| Decimal.ParseDoubleTrims | src/main/java/com/greenfoxacademy/bankingbackofficebackendservice/services/DefaultExchangeService.java:56 | characters up to the space around the text do not change the parse |
| Decimal.ParseSigned | src/main/java/com/greenfoxacademy/bankingbackofficebackendservice/services/DefaultExchangeService.java:56 | a leading minus negates the unsigned reading and a leading plus keeps it |
| Decimal.ParseUnsignedIff | src/main/java/com/greenfoxacademy/bankingbackofficebackendservice/services/DefaultExchangeService.java:56 | the unsigned reading succeeds exactly on text made only of digits and at most one point, with at least one digit; anything else is the NumberFormatException |
| Decimal.ParseDoubleIff | src/main/java/com/greenfoxacademy/bankingbackofficebackendservice/services/DefaultExchangeService.java:56 | a parse succeeds exactly when the trimmed text is such a numeral, possibly behind one `-` or `+` |
| Exchange.FirstContaining | src/main/java/com/greenfoxacademy/bankingbackofficebackendservice/services/DefaultExchangeService.java:48-51 | the chosen entry contains the quoted code and no earlier entry does; none means no entry does |
| Exchange.ParseRate | src/main/java/com/greenfoxacademy/bankingbackofficebackendservice/services/DefaultExchangeService.java:44-59 | fails only with IllegalArgument, IndexOutOfBounds or NumberFormat, and with IllegalArgument exactly when no `</Rate>`-separated entry mentions `"CCY"` |
| Exchange.UnknownCurrency | src/main/java/com/greenfoxacademy/bankingbackofficebackendservice/services/DefaultExchangeService.java:46-51 | a feed that never mentions `"CCY"` is refused with IllegalArgument |
| Exchange.ParsedRateWasQuoted | src/main/java/com/greenfoxacademy/bankingbackofficebackendservice/services/DefaultExchangeService.java:48-56 | a successful parse implies the feed mentions the quoted code |
| Exchange.ParseRateEntry | src/main/java/com/greenfoxacademy/bankingbackofficebackendservice/services/DefaultExchangeService.java:44-59 | for an entry `…"CCY">num</Rate>` with no earlier mention of the code or end tag, the rate is what `parseDouble` reads from `num` with commas made points; it is NumberFormat exactly when that text is not a signed decimal numeral |
| Exchange.ParseRateRoundTrip | src/main/java/com/greenfoxacademy/bankingbackofficebackendservice/services/DefaultExchangeService.java:44-59 | round trip of the feed: an entry `…"CCY">whole,frac</Rate>` with no earlier mention of the code or end tag parses to the value of its digits, the comma read as a point |
| Exchange.ParseRateNoNumber | src/main/java/com/greenfoxacademy/bankingbackofficebackendservice/services/DefaultExchangeService.java:54-55 | an entry that ends right after `"CCY">` leaves no second piece and fails with IndexOutOfBounds |
| Exchange.FeedQuotes | src/main/java/com/greenfoxacademy/bankingbackofficebackendservice/services/DefaultExchangeService.java:16-29 | a reply holding such an entry quotes the currency at that value |
| Exchange.DollarEntry | src/main/java/com/greenfoxacademy/bankingbackofficebackendservice/services/DefaultExchangeService.java:44-59 | the entry `<Rate unit="1" curr="USD">300,5</Rate>` quotes the dollar at 300.5 |
| Exchange.HufRate | src/main/java/com/greenfoxacademy/bankingbackofficebackendservice/services/DefaultExchangeService.java:16-29 | HUF is 1 without the feed; a SOAP fault yields a missing (null) rate, not an error; otherwise the parsed value, or the parse's own exception passed on unchanged |
| Exchange.Quotient | src/main/java/com/greenfoxacademy/bankingbackofficebackendservice/services/DefaultExchangeService.java:37-42 | the cross rate is rateA / rateB exactly when both are known and the divisor is non-zero; rateA's fetch error wins, then rateB's; a null rate is NullPointer, a zero divisor NonFinite |
| Exchange.Rate | src/main/java/com/greenfoxacademy/bankingbackofficebackendservice/services/DefaultExchangeService.java:37-42 | HUF to HUF is 1; a faulting feed makes every other pair fail with NullPointer; success implies both HUF rates were known |
| Exchange.Scale | src/main/java/com/greenfoxacademy/bankingbackofficebackendservice/services/DefaultExchangeService.java:31-35 | succeeds exactly when the rate does, with amount times rate, and otherwise passes the rate's error on |
| Exchange.Convert | src/main/java/com/greenfoxacademy/bankingbackofficebackendservice/services/DefaultExchangeService.java:31-35 | succeeds exactly when the cross rate does, with the amount times that rate, and otherwise fails with the rate's error; HUF to HUF returns the amount |
| Exchange.RateOfQuotes | src/main/java/com/greenfoxacademy/bankingbackofficebackendservice/services/DefaultExchangeService.java:38-41 | for two quoted currencies with a non-zero divisor the cross rate is the quotient of the quotes |
| Exchange.QuotientSelf | src/main/java/com/greenfoxacademy/bankingbackofficebackendservice/services/DefaultExchangeService.java:41 | a currency against itself has rate 1 and conversion leaves the amount unchanged |
| Exchange.QuotientInverse | src/main/java/com/greenfoxacademy/bankingbackofficebackendservice/services/DefaultExchangeService.java:41 | the rates a-to-b and b-to-a multiply to 1, so converting there and back returns the amount |
| Exchange.QuotientChain | src/main/java/com/greenfoxacademy/bankingbackofficebackendservice/services/DefaultExchangeService.java:41 | a-to-b times b-to-c is a-to-c |
| Exchange.RateSelf | src/main/java/com/greenfoxacademy/bankingbackofficebackendservice/services/DefaultExchangeService.java:37-42 | with the feed, a quoted currency with a non-zero quote has rate 1 against itself |
| Exchange.RateAgainstHuf | src/main/java/com/greenfoxacademy/bankingbackofficebackendservice/services/DefaultExchangeService.java:19-21 | with the feed, currency-to-HUF is the quote and HUF-to-currency its reciprocal |
| Exchange.DollarToForint | src/main/java/com/greenfoxacademy/bankingbackofficebackendservice/services/DefaultExchangeService.java:37-42 | on the dollar's entry, one dollar buys 300.5 forints |
| Exchange.ForintToDollar | src/main/java/com/greenfoxacademy/bankingbackofficebackendservice/services/DefaultExchangeService.java:37-42 | on the same entry, HUF to USD succeeds and its rate times 300.5 is one |
| Exchange.DollarConversion | src/main/java/com/greenfoxacademy/bankingbackofficebackendservice/services/DefaultExchangeService.java:31-35 | on the same entry, 2 dollars convert to 601 forints |
| JavaNum.Trunc | src/main/java/com/greenfoxacademy/bankingbackofficebackendservice/services/TransferServiceImpl.java:42 | the `(long)` cast: the integer between zero and the value within distance one, on the zero side |
| JavaNum.TruncTowardZero | src/main/java/com/greenfoxacademy/bankingbackofficebackendservice/services/TransferServiceImpl.java:42 | truncation never moves away from zero and never crosses it |
| JavaNum.TruncAddNonNegative | src/main/java/com/greenfoxacademy/bankingbackofficebackendservice/services/TransferServiceImpl.java:44 | crediting a non-negative amount and truncating never lowers a whole balance |
| JavaNum.TruncSubNonNegative | src/main/java/com/greenfoxacademy/bankingbackofficebackendservice/services/TransferServiceImpl.java:42 | debiting a non-negative amount and truncating never raises a whole balance |
| Transactions.GetAllTransactions | src/main/java/com/greenfoxacademy/bankingbackofficebackendservice/services/TransactionServiceImpl.java:18-21 | exactly the stored records dated strictly after the cutoff, unchanged |
| Transactions.ValidTransaction | src/main/java/com/greenfoxacademy/bankingbackofficebackendservice/models/Transaction.java:24-53 | a valid record has non-empty account numbers of at most 34 characters and currencies of exactly 3 characters and a strictly positive amount |
| Transactions.FromSource | src/main/java/com/greenfoxacademy/bankingbackofficebackendservice/services/TransactionServiceImpl.java:34-38 | exactly the windowed records whose source number equals the argument |
| Transactions.FromTarget | src/main/java/com/greenfoxacademy/bankingbackofficebackendservice/services/TransactionServiceImpl.java:40-44 | exactly the windowed records whose target number equals the argument |
| Transactions.FromSourceAndTarget | src/main/java/com/greenfoxacademy/bankingbackofficebackendservice/services/TransactionServiceImpl.java:46-52 | exactly the windowed records with that source and that target (first argument binds the source) |
| Transactions.CombinedIsIntersection | src/main/java/com/greenfoxacademy/bankingbackofficebackendservice/repositories/TransactionRepository.java:17-20 | the combined query is the intersection of the source and target queries, despite the swapped parameter names |
| Transactions.WindowSlides | src/main/java/com/greenfoxacademy/bankingbackofficebackendservice/services/TransactionServiceImpl.java:58-60 | a later clock never returns a record an earlier clock did not |
| Transactions.CutoffIsStrict | src/main/java/com/greenfoxacademy/bankingbackofficebackendservice/repositories/TransactionRepository.java:12 | a record dated exactly at the cutoff is excluded and one a nanosecond later included |
| Transactions.Select | src/main/java/com/greenfoxacademy/bankingbackofficebackendservice/controllers/TransactionController.java:28-36 | whichever query runs, the result is exactly the last 90 days' records naming every supplied account (an absent parameter does not filter), each as stored |
| Transactions.SelectNarrows | src/main/java/com/greenfoxacademy/bankingbackofficebackendservice/controllers/TransactionController.java:28-36 | every selection stays within the 90-day window and matches each supplied account |
| Transactions.CreateTransactionKeepsRecord | src/main/java/com/greenfoxacademy/bankingbackofficebackendservice/services/TransactionServiceImpl.java:23-32 | a stored id is refused with AlreadyExists, a null id always succeeds, and the saved record reads back with every field unchanged |
| Transactions.RecordedTransferVisible | src/main/java/com/greenfoxacademy/bankingbackofficebackendservice/services/TransactionServiceImpl.java:18-32 | a transfer's record (null id) is always saved and is then listed by the 90-day query while its date is inside the window |
| Transfer.TransferWithinBank | src/main/java/com/greenfoxacademy/bankingbackofficebackendservice/services/TransferServiceImpl.java:21-86 | unknown source is NotFound; same number is BadResource before the target is looked up; a failed target lookup (NotFound, NonUniqueResult) and then a failed rate lookup are passed on unchanged; with both known, it succeeds exactly when amount x rate is within the balance and otherwise is BadResource; on success source becomes trunc(old - amount x rate), target trunc(old + amount), no other account changes; the record carries source number and currency, target number and currency, the unconverted amount and the rate |
| Transfer.TransferToAnotherBank | src/main/java/com/greenfoxacademy/bankingbackofficebackendservice/services/TransferServiceImpl.java:52-99 | unknown source is NotFound; a raw amount above the balance is BadResource; otherwise the transfer succeeds exactly when the rate (source currency to the caller's currency) is available, and a rate failure is passed through unchanged; on success only the source changes, to trunc(old - amount x rate); the record carries the source number and currency, the IBAN, the caller's currency, the unconverted amount and the rate |
| Transfer.BuildInternal | src/main/java/com/greenfoxacademy/bankingbackofficebackendservice/services/TransferServiceImpl.java:76-86 | the internal record passes the entity's validation exactly when both account numbers and both currencies do and the amount is positive; it carries the amount as requested, the rate used and the construction time |
| Transfer.BuildExternal | src/main/java/com/greenfoxacademy/bankingbackofficebackendservice/services/TransferServiceImpl.java:88-99 | the same for the external record, with the IBAN in place of the target number and the caller's currency in place of the target currency |
| Transfer.InternalFundsCheck | src/main/java/com/greenfoxacademy/bankingbackofficebackendservice/services/TransferServiceImpl.java:32-40 | with both accounts and the rate known, the transfer succeeds iff amount x rate is at most the balance (equality passes), and otherwise fails with BadResource |
| Transfer.InternalBalances | src/main/java/com/greenfoxacademy/bankingbackofficebackendservice/services/TransferServiceImpl.java:37-45 | after a successful internal transfer the source is non-negative and, for a non-negative amount, the target did not decrease |
| Transfer.TransfersKeepNumbers | src/main/java/com/greenfoxacademy/bankingbackofficebackendservice/services/TransferServiceImpl.java:42-45 | both transfers keep the set of account numbers and their distinctness |
| Transfer.ExternalCheckPrecedesRate | src/main/java/com/greenfoxacademy/bankingbackofficebackendservice/services/TransferServiceImpl.java:54-62 | a refusal for a missing source or insufficient funds is the same whatever exchange service is used |
| Transfer.ExternalCanOverdraw | src/main/java/com/greenfoxacademy/bankingbackofficebackendservice/services/TransferServiceImpl.java:56-65 | at rate 2 an amount equal to the balance passes the check and leaves the balance at minus the old balance |
| Transfer.InternalExample | src/test/java/com/greenfoxacademy/bankingbackofficebackendservice/services/TransferServiceImplTest.java:26-59 | HUF 1000 paying 2 to USD 2000 at 300 HUF per USD leaves 400 and 2002 |
| Transfer.ExternalExample | src/test/java/com/greenfoxacademy/bankingbackofficebackendservice/services/TransferServiceImplTest.java:61-85 | as the code computes it, the external example leaves 999, not the 400 the test expects |
| Transfer.FeedForintTransfer | src/main/java/com/greenfoxacademy/bankingbackofficebackendservice/services/TransferServiceImpl.java:30-35 | with the feed service, a HUF-to-HUF transfer succeeds iff the amount is within the balance, debits exactly the amount (truncated) and records rate 1, whatever the feed says |
| Transfer.FeedFaultStopsTransfer | src/main/java/com/greenfoxacademy/bankingbackofficebackendservice/services/TransferServiceImpl.java:32-35 | with a faulting feed, an internal transfer involving a non-HUF currency fails with NullPointer before any balance is written |
| Notification.GreetedNameRoundTrip | src/main/java/com/greenfoxacademy/bankingbackofficebackendservice/services/NotificationServiceImpl.java:40-49 | the addressee's name can be read back from the body: composing then reading gives the name |
| Notification.BodiesDifferOnlyInName | src/main/java/com/greenfoxacademy/bankingbackofficebackendservice/services/NotificationServiceImpl.java:40-49 | two bodies about one transaction coincide after the greeting, and are equal iff the names are |
| Notification.Compose | src/main/java/com/greenfoxacademy/bankingbackofficebackendservice/services/NotificationServiceImpl.java:34-51 | one recipient, the fixed sender and subject, a text from which the addressee's name reads back, and the same details after the greeting |
| Notification.NotifyClientsOnSuccess | src/main/java/com/greenfoxacademy/bankingbackofficebackendservice/services/NotificationServiceImpl.java:24-51 | succeeds iff both numbers resolve; an unknown source is NotFound; on success exactly two mails, to the source owner then the target owner, each from bankingofficeapp@yahoo.com to the owner's e-mail alone, with the fixed subject and the greeting-plus-details body |
| Notification.NotifyFailsIffUnknown | src/main/java/com/greenfoxacademy/bankingbackofficebackendservice/services/NotificationServiceImpl.java:53-58 | with distinct numbers, notification fails iff one of the numbers is not a local account, and then with NotFound |
| Notification.SameOwnerTwice | src/main/java/com/greenfoxacademy/bankingbackofficebackendservice/services/NotificationServiceImpl.java:24-32 | a client owning both accounts receives two identical messages |
| Hook.AfterTransferMoneyAdvice | src/main/java/com/greenfoxacademy/bankingbackofficebackendservice/aspect/TransferServiceAspect.java:21-27 | a refused save leaves the store and sends nothing; a successful save stands, and mails are sent iff notification succeeds, exactly two of them |
| Hook.RunTransfer | src/main/java/com/greenfoxacademy/bankingbackofficebackendservice/controllers/AccountController.java:86-102 | a validated body reaches the transfer with its own fields, so a successful transfer records a positive amount dated now |
| Hook.Execute | src/main/java/com/greenfoxacademy/bankingbackofficebackendservice/aspect/TransferServiceAspect.java:21-27 | an invalid body is NotValid (the 400 of the validation handler) with nothing changed; a throwing transfer changes nothing and runs no advice; after a normal return the new ledger stands and the record is saved; then the mails sent are exactly the notification's two mails when it succeeds, and when it fails no mail goes out and its error (an account lookup's NotFound or NonUniqueResult) is the one reported |
| Hook.InternalSuccessNotifies | src/main/java/com/greenfoxacademy/bankingbackofficebackendservice/aspect/TransferServiceAspect.java:23-26 | with distinct numbers, a successful internal transfer is recorded under a fresh key exactly as returned and both owners are mailed, source owner first |
| Hook.ExternalRecordedButNotNotified | src/main/java/com/greenfoxacademy/bankingbackofficebackendservice/aspect/TransferServiceAspect.java:25-26 | an external transfer to a non-local IBAN is recorded, then notification fails with NotFound and no mail is sent, while the debit stands |
| Hook.RecordIsValid | src/main/java/com/greenfoxacademy/bankingbackofficebackendservice/models/Transaction.java:24-53 | the record of an accepted request satisfies the transaction constraints, given accounts with valid number and currency |
| Dtos.IbanShapedIff | src/main/java/com/greenfoxacademy/bankingbackofficebackendservice/models/dtos/IbanTransferDTO.java:14 | the IBAN check accepts exactly the concatenations of 2 letters, 2 digits, 4 alphanumerics, 7 digits and at most 16 alphanumerics |
| Dtos.IbanTransferViolations | src/main/java/com/greenfoxacademy/bankingbackofficebackendservice/models/dtos/IbanTransferDTO.java:13-23 | the IBAN is violated iff missing, blank or not IBAN-shaped; the amount iff missing or not positive; the currency iff missing, blank or not 3 characters |
| Dtos.TransferViolations | src/main/java/com/greenfoxacademy/bankingbackofficebackendservice/models/dtos/TransferDTO.java:11-16 | the target is violated iff missing or blank (no other format), the amount iff missing or not positive |
| Dtos.IbanShapedNotBlank | src/main/java/com/greenfoxacademy/bankingbackofficebackendservice/models/dtos/IbanTransferDTO.java:13-14 | an IBAN-shaped string is never blank |
| Dtos.CheckDigitsUnchecked | src/main/java/com/greenfoxacademy/bankingbackofficebackendservice/models/dtos/IbanTransferDTO.java:14 | replacing the check digits by any digits keeps an accepted IBAN accepted: no mod-97 check |
| Dtos.Examples | src/test/java/com/greenfoxacademy/bankingbackofficebackendservice/apiTests/TransferAPITest.java:54-79 | an empty target is rejected, a non-positive or missing amount is rejected, and NL60ABNA6044978370 is IBAN-shaped |
| Dtos.AcceptedIbanTransfer | src/main/java/com/greenfoxacademy/bankingbackofficebackendservice/models/dtos/IbanTransferDTO.java:13-23 | an accepted body has an IBAN of 15 to 31 characters, a non-blank three-character currency and a positive amount |

## Left out

- HTTP controllers, JSON-Patch, status-code mapping, security configuration and the application entry point: routing only. The query-parameter dispatch of the transactions endpoint is kept as `Transactions.Select`.
- The SOAP transport and its generated client classes: network I/O. The call's result is an input, and one feed snapshot serves both HUF rates of a cross rate (the code calls the service twice).
- `Transfer.FeedRates` and `Exchange.ParseRate`: `split` is modelled for a literal separator. A currency code holding regular-expression metacharacters would be read as a pattern by Java. The feed's `unit` attribute is ignored, as in the code.
- Decimal.ParseDouble: only optionally signed plain decimals are accepted. Exponents, hexadecimal floats, `NaN`, `Infinity` and type suffixes are not modelled, and a value is exact rather than rounded to the nearest double.
- Exchange.Quotient: IEEE-754 results (Infinity, NaN, rounding) are replaced by exact reals and the error `NonFinite`.
- JavaNum.Trunc: the cast's saturation at the `Long` range and its treatment of NaN are not modelled. Balances are unbounded.
- `@Transactional` atomicity, the ordering of the transaction proxy and the aspect, and concurrent updates: database semantics. The model keeps a transfer's balance changes even when the advice fails afterwards.
- Ledger.CreateAccount: the loop needs a witness that the generator eventually returns a free number. The `bound` requirement stands in for the random generator's practical freshness. `Account.java` is not part of this model, so the account record carries only the fields the services use.
- Mail transport, the locale-dependent `FormatStyle.MEDIUM` date format and `Double.toString`: these are parameters of `Notification.Format`. A send failure after the first mail is not modelled.
- JPA cascades and the unique-pin and branch unique constraints: enforced by the database, not by the service code.
- The random UUID default of `clientID`: randomness. A client's id is an input.
- Branch and employee field constraints: those records are plain entities. Their services are the generic `Store` operations.
- Exception messages and `System.out` logging of the external transfer: only the error kind is modelled.
- `Store.Update`: a null id is refused with NotFound, as the services' tests expect. Spring Data's `existsById(null)` would throw IllegalArgumentException instead.
- Store.Create: a save with an explicit unused id stores the row under that id. Hibernate's merge of a detached entity with an unknown id may assign a generated one instead.
- Clients.Violations: client fields are never null in the model. So the null case of @NotBlank and the @NotNull on `birthDate` cannot arise, and the contract is silent on it; Java would report those fields as violated. The request DTOs, whose fields do arrive as JSON nulls, model null as an absent `Option` value. The `@Email` format rule on `email` is not modelled either: the e-mail is checked only for being non-blank and at most 255 characters, so text such as `abc`, which Hibernate Validator's e-mail check refuses, counts as valid here. That check's grammar of local part, `@` and domain (with internationalised domain names) is large, and no service relies on it beyond accepting or refusing the client.
- Transactions.ValidTransaction: likewise, the record's fields are never null, so the null case of @NotBlank and @NotNull is not represented. Records are only built by the transfers, which fill every field.
- Lengths count `char`s as Java does only for characters of the Basic Multilingual Plane.
