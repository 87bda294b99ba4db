/** The transaction record, its field constraints, and the transaction
    store's 90-day windowed queries.

    Recording a transaction is the generic existence-checked creation of
    module Store; the record comes back with every field unchanged.
    Timestamps are local date-times counted in nanoseconds; "now" is a
    parameter.
 */
module Transactions {
  import opened Wrappers
  import opened Text
  import opened Store

  datatype Transaction = Transaction(
    sourceAccountNumber: string,
    targetAccountNumber: string,
    sourceCurrency: string,
    targetCurrency: string,
    date: int,
    amount: real,
    exchangeRate: real)

  /** The column length of both account-number columns. */
  const AccountNumberLength: nat := 34

  /** @NotBlank plus the 34-character column. */
  predicate AccountNumberText(s: string) {
    NotBlank(s) && |s| <= AccountNumberLength
  }

  /** @NotBlank plus @Size(min = 3, max = 3). */
  predicate CurrencyCode(s: string) {
    NotBlank(s) && |s| == 3
  }

  /** The declared constraints: both numbers and both currencies as above,
      a strictly positive amount; the exchange rate is only required to be
      present, with no sign constraint. */
  predicate ValidTransaction(t: Transaction)
    ensures ValidTransaction(t) ==>
      && 0 < |t.sourceAccountNumber| <= AccountNumberLength
      && 0 < |t.targetAccountNumber| <= AccountNumberLength
      && |t.sourceCurrency| == 3 && |t.targetCurrency| == 3
      && t.amount > 0.0
  {
    AccountNumberText(t.sourceAccountNumber)
    && AccountNumberText(t.targetAccountNumber)
    && CurrencyCode(t.sourceCurrency)
    && CurrencyCode(t.targetCurrency)
    && t.amount > 0.0
  }

  const NanosPerDay: int := 86_400_000_000_000

  /** `LocalDateTime.now().minusDays(90)`: a local date-time has no
      daylight-saving gaps, so this is exactly 90 days of nanoseconds. */
  function NinetyDaysBefore(now: int): (r: int)
    ensures r < now && now - r == 90 * NanosPerDay
  {
    now - 90 * NanosPerDay
  }

  /** The selection behind every query: stored records dated strictly after
      the cutoff and accepted by `keep`. */
  function Recent(t: Table<Transaction>, now: int, keep: Transaction -> bool): (r: map<int, Transaction>)
    ensures forall k :: k in r <==> k in t.rows && t.rows[k].date > NinetyDaysBefore(now) && keep(t.rows[k])
    ensures forall k :: k in r ==> r[k] == t.rows[k]
  {
    map k | k in t.rows && t.rows[k].date > NinetyDaysBefore(now) && keep(t.rows[k]) :: t.rows[k]
  }

  /** `getAllTransactions`: the records of the last 90 days. */
  function GetAllTransactions(t: Table<Transaction>, now: int): (r: map<int, Transaction>)
    ensures forall k :: k in r <==> k in t.rows && t.rows[k].date > NinetyDaysBefore(now)
    ensures forall k :: k in r ==> r[k] == t.rows[k]
  {
    Recent(t, now, (_: Transaction) => true)
  }

  /** `getAllTransactionsFromSourceAccount`. */
  function FromSource(t: Table<Transaction>, now: int, source: string): (r: map<int, Transaction>)
    ensures forall k :: k in r <==> k in GetAllTransactions(t, now) && t.rows[k].sourceAccountNumber == source
    ensures forall k :: k in r ==> r[k] == t.rows[k]
  {
    Recent(t, now, (x: Transaction) => x.sourceAccountNumber == source)
  }

  /** `getAllTransactionsFromTargetAccount`. */
  function FromTarget(t: Table<Transaction>, now: int, target: string): (r: map<int, Transaction>)
    ensures forall k :: k in r <==> k in GetAllTransactions(t, now) && t.rows[k].targetAccountNumber == target
    ensures forall k :: k in r ==> r[k] == t.rows[k]
  {
    Recent(t, now, (x: Transaction) => x.targetAccountNumber == target)
  }

  /** `getAllTransactionsFromSourceAccountAndTargetAccount`. The repository
      method names its parameters the other way round, but query arguments
      bind by position, so the first argument still filters the source. */
  function FromSourceAndTarget(t: Table<Transaction>, now: int, source: string, target: string): (r: map<int, Transaction>)
    ensures forall k :: k in r <==>
      (k in GetAllTransactions(t, now)
       && t.rows[k].sourceAccountNumber == source && t.rows[k].targetAccountNumber == target)
    ensures forall k :: k in r ==> r[k] == t.rows[k]
  {
    Recent(t, now, (x: Transaction) => x.sourceAccountNumber == source && x.targetAccountNumber == target)
  }

  /** The combined query is exactly the intersection of the source query
      and the target query. */
  lemma CombinedIsIntersection(t: Table<Transaction>, now: int, source: string, target: string)
    ensures FromSourceAndTarget(t, now, source, target).Keys
            == FromSource(t, now, source).Keys * FromTarget(t, now, target).Keys
  {
  }

  /** Records only age out: a later clock never returns a record an
      earlier one did not, and a record dated after the later cutoff is
      returned at both times. */
  lemma WindowSlides(t: Table<Transaction>, now: int, later: int, k: int)
    requires now <= later
    ensures GetAllTransactions(t, later).Keys <= GetAllTransactions(t, now).Keys
    ensures k in t.rows && t.rows[k].date > NinetyDaysBefore(later) ==> k in GetAllTransactions(t, now)
  {
  }

  /** A record dated exactly at the cutoff is excluded; one a nanosecond
      later is included. */
  lemma CutoffIsStrict(t: Table<Transaction>, now: int, k: int)
    requires k in t.rows
    ensures t.rows[k].date == NinetyDaysBefore(now) ==> k !in GetAllTransactions(t, now)
    ensures t.rows[k].date == NinetyDaysBefore(now) + 1 ==> k in GetAllTransactions(t, now)
  {
  }

  /** The query parameters of the transactions endpoint: each is optional. */
  datatype Query = Query(sourceAccount: Option<string>, targetAccount: Option<string>)

  /** The endpoint's four-way choice among the queries: whichever query
      runs, the result is the last 90 days' records that name every
      account supplied, each as stored. */
  function Select(t: Table<Transaction>, now: int, q: Query): (r: map<int, Transaction>)
    ensures forall k :: k in r <==>
      (k in GetAllTransactions(t, now)
       && (q.sourceAccount.Some? ==> t.rows[k].sourceAccountNumber == q.sourceAccount.value)
       && (q.targetAccount.Some? ==> t.rows[k].targetAccountNumber == q.targetAccount.value))
    ensures forall k :: k in r ==> r[k] == t.rows[k]
    ensures q.sourceAccount.None? && q.targetAccount.None? ==> r == GetAllTransactions(t, now)
    ensures q.sourceAccount.Some? && q.targetAccount.None? ==> r == FromSource(t, now, q.sourceAccount.value)
    ensures q.sourceAccount.None? && q.targetAccount.Some? ==> r == FromTarget(t, now, q.targetAccount.value)
    ensures q.sourceAccount.Some? && q.targetAccount.Some? ==>
      r == FromSourceAndTarget(t, now, q.sourceAccount.value, q.targetAccount.value)
  {
    match (q.sourceAccount, q.targetAccount)
    case (None, None) => GetAllTransactions(t, now)
    case (Some(s), None) => FromSource(t, now, s)
    case (None, Some(g)) => FromTarget(t, now, g)
    case (Some(s), Some(g)) => FromSourceAndTarget(t, now, s, g)
  }

  /** Every selection keeps only records of the last 90 days, and a
      supplied account narrows it to records naming that account. */
  lemma SelectNarrows(t: Table<Transaction>, now: int, q: Query, k: int)
    requires k in Select(t, now, q)
    ensures k in GetAllTransactions(t, now)
    ensures q.sourceAccount.Some? ==> t.rows[k].sourceAccountNumber == q.sourceAccount.value
    ensures q.targetAccount.Some? ==> t.rows[k].targetAccountNumber == q.targetAccount.value
  {
  }

  /** `createTransaction`: a new record is readable under its key with
      every field as given, and a record with a stored id is refused with
      the store unchanged. */
  lemma CreateTransactionKeepsRecord(t: Table<Transaction>, id: Option<int>, tx: Transaction)
    ensures Create(t, id, tx).Ok? ==> Get(Create(t, id, tx).value.table, Create(t, id, tx).value.row.id) == Ok(Row(Create(t, id, tx).value.row.id, tx))
    ensures id.Some? && id.value in t.rows ==> Create(t, id, tx) == Err(AlreadyExists)
    ensures id.None? ==> Create(t, id, tx).Ok?
  {
  }

  /** A transfer's record is new (its id is null), so recording it always
      succeeds and it appears among the last 90 days' records as long as
      its date is within the window. */
  lemma RecordedTransferVisible(t: Table<Transaction>, tx: Transaction, now: int)
    requires NinetyDaysBefore(now) < tx.date
    ensures Create(t, None, tx).Ok?
    ensures var s := Create(t, None, tx).value;
      s.row.id in GetAllTransactions(s.table, now) && GetAllTransactions(s.table, now)[s.row.id] == tx
  {
  }
}
