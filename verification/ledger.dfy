/** The account ledger: accounts keyed by id, looked up by id or by account
    number, created through the account-number collision-retry loop, and
    updated or removed with an existence check.

    The ledger's invariant is that account numbers are pairwise distinct.
    The database does not enforce it; creation preserves it by retrying,
    update and remove preserve it only under the conditions stated below.
 */
module Ledger {
  import opened Wrappers
  import opened Store
  import Clients

  /** An account: its number, currency code, whole-unit balance (a Java
      `Long`) and the client who owns it. */
  datatype Account = Account(number: string, currency: string, balance: int, owner: Clients.Client)

  type Accounts = Table<Account>

  /** Every account number in use. */
  function Numbers(l: Accounts): (r: set<string>)
    ensures forall n :: n in r <==> exists k :: k in l.rows && l.rows[k].number == n
  {
    set k | k in l.rows :: l.rows[k].number
  }

  /** The ids of the accounts whose number is `n`. */
  function HoldersOf(l: Accounts, n: string): (r: set<int>)
    ensures forall k :: k in r <==> k in l.rows && l.rows[k].number == n
  {
    set k | k in l.rows && l.rows[k].number == n
  }

  ghost predicate UniqueNumbers(l: Accounts) {
    forall j, k :: j in l.rows && k in l.rows && l.rows[j].number == l.rows[k].number ==> j == k
  }

  /** A set with one element has no two different elements. */
  lemma SingletonUnique(s: set<int>)
    requires |s| == 1
    ensures forall a, b :: a in s && b in s ==> a == b
  {
    forall a, b | a in s && b in s
      ensures a == b
    {
      if a != b {
        assert {a, b} <= s;
        assert |{a, b}| == 2;
        SubsetCard({a, b}, s);
      }
    }
  }

  /** A set of positive size has an element. */
  lemma SomeElement(s: set<int>)
    requires |s| > 0
    ensures exists x :: x in s
  {
    if forall x :: x !in s {
      assert false;
    }
  }

  lemma SubsetCard(a: set<int>, b: set<int>)
    requires a <= b
    ensures |a| <= |b|
  {
    assert b == a + (b - a);
  }

  /** Under unique numbers a number has at most one holder. */
  lemma HoldersAtMostOne(l: Accounts, n: string)
    requires UniqueNumbers(l)
    ensures |HoldersOf(l, n)| <= 1
  {
    var h := HoldersOf(l, n);
    if |h| > 0 {
      SomeElement(h);
      var k :| k in h;
      forall j | j in h
        ensures j == k
      {
      }
      assert h == {k};
    }
  }

  /** `getAccountByAccountNumber`: the account holding number `n`. No
      holder is NotFound; several holders make the single-result query
      fail with NonUniqueResult. */
  function GetAccountByAccountNumber(l: Accounts, n: string): (r: Result<Row<Account>>)
    ensures r.Ok? ==> r.value.id in l.rows && l.rows[r.value.id] == r.value.value
    ensures r.Ok? ==> r.value.value.number == n
    ensures r == Err(NotFound) <==> n !in Numbers(l)
    ensures r.Err? ==> r.error == NotFound || r.error == NonUniqueResult
    ensures UniqueNumbers(l) ==> (r.Ok? <==> n in Numbers(l))
  {
    var holders := HoldersOf(l, n);
    HeldIff(l, n);
    if |holders| == 0 then
      Err(NotFound)
    else if |holders| > 1 then
      HoldersAtMostOneIfUnique(l, n);
      Err(NonUniqueResult)
    else
      SingletonUnique(holders);
      SomeElement(holders);
      var k :| k in holders;
      Ok(Row(k, l.rows[k]))
  }

  /** A number is in use exactly when it has a holder. */
  lemma HeldIff(l: Accounts, n: string)
    ensures |HoldersOf(l, n)| == 0 <==> n !in Numbers(l)
  {
    if n in Numbers(l) {
      var k :| k in l.rows && l.rows[k].number == n;
      assert k in HoldersOf(l, n);
    }
    if |HoldersOf(l, n)| > 0 {
      SomeElement(HoldersOf(l, n));
    }
  }

  lemma HoldersAtMostOneIfUnique(l: Accounts, n: string)
    ensures UniqueNumbers(l) ==> |HoldersOf(l, n)| <= 1
  {
    if UniqueNumbers(l) {
      HoldersAtMostOne(l, n);
    }
  }

  /** Under unique numbers, looking an account up by its own number finds
      that very account. */
  lemma LookupFindsHolder(l: Accounts, id: int)
    requires UniqueNumbers(l) && id in l.rows
    ensures GetAccountByAccountNumber(l, l.rows[id].number) == Ok(Row(id, l.rows[id]))
  {
  }

  /** The number tried on attempt `i`: the account's own number first, then
      the generator's successive outputs. */
  function Candidate(first: string, generate: nat -> string, i: nat): string {
    if i == 0 then first else generate(i - 1)
  }

  /** `createAccount`: refuses an id that is present and stored; otherwise
      replaces the account number by generated ones while the number is
      taken, and saves. `generate(i)` is what `Account.generateAccountNumber`
      returns on its i-th call; `bound` names a call known to return a free
      number, which is what makes the loop finish. `attempts` counts the
      numbers tried before the free one. */
  method CreateAccount(l: Accounts, id: Option<int>, account: Account, generate: nat -> string, ghost bound: nat)
    returns (r: Result<Saved<Account>>, attempts: nat)
    requires generate(bound) !in Numbers(l)
    ensures r.Err? <==> id.Some? && id.value in l.rows
    ensures r.Err? ==> r.error == AlreadyExists && attempts == 0
    ensures r.Ok? ==> r.value.row.value == account.(number := Candidate(account.number, generate, attempts))
    ensures r.Ok? ==> r.value.row.value.number !in Numbers(l)
    ensures r.Ok? ==> forall i :: 0 <= i < attempts ==> Candidate(account.number, generate, i) in Numbers(l)
    ensures r.Ok? ==> r.value.table.rows == l.rows[r.value.row.id := r.value.row.value]
    ensures r.Ok? && id.Some? ==> r.value.row.id == id.value
    ensures r.Ok? && Valid(l) ==> r.value.row.id !in l.rows && Valid(r.value.table)
    ensures r.Ok? && Valid(l) && UniqueNumbers(l) ==> UniqueNumbers(r.value.table)
  {
    if id.Some? && id.value in l.rows {
      return Err(AlreadyExists), 0;
    }
    var taken := Numbers(l);
    var number := account.number;
    attempts := 0;
    while number in taken
      invariant attempts <= bound + 1
      invariant number == Candidate(account.number, generate, attempts)
      invariant forall i :: 0 <= i < attempts ==> Candidate(account.number, generate, i) in taken
      decreases bound + 1 - attempts
    {
      attempts := attempts + 1;
      number := generate(attempts - 1);
    }
    var renumbered := account.(number := number);
    var saved := Create(l, id, renumbered);
    r := saved;
    if Valid(l) && UniqueNumbers(l) {
      CreateKeepsUnique(l, id, renumbered);
    }
  }

  /** Saving an account under a fresh key with a number nobody holds keeps
      the numbers distinct. */
  lemma CreateKeepsUnique(l: Accounts, id: Option<int>, a: Account)
    requires Valid(l) && UniqueNumbers(l)
    requires Create(l, id, a).Ok? && a.number !in Numbers(l)
    ensures UniqueNumbers(Create(l, id, a).value.table)
  {
    var s := Create(l, id, a).value;
    forall j, k | j in s.table.rows && k in s.table.rows && s.table.rows[j].number == s.table.rows[k].number
      ensures j == k
    {
      if j != s.row.id && k != s.row.id {
        assert l.rows[j].number == l.rows[k].number;
      }
    }
  }

  /** `updateAccount` does not re-check numbers: the invariant survives an
      update exactly when no other account holds the new number — in
      particular when the update keeps the account's number. */
  lemma UpdateKeepsUnique(l: Accounts, id: int, a: Account)
    requires UniqueNumbers(l) && id in l.rows
    requires forall k :: k in l.rows && k != id ==> l.rows[k].number != a.number
    ensures Update(l, Some(id), a).Ok?
    ensures UniqueNumbers(Update(l, Some(id), a).value)
    ensures Numbers(Update(l, Some(id), a).value) == Numbers(l) - {l.rows[id].number} + {a.number}
  {
    var u := Update(l, Some(id), a).value;
    assert forall k :: k in u.rows ==> u.rows[k] == (if k == id then a else l.rows[k]);
    forall n | n in Numbers(l) - {l.rows[id].number} + {a.number}
      ensures n in Numbers(u)
    {
      if n != a.number {
        var k :| k in l.rows && l.rows[k].number == n;
        assert k != id;
        assert u.rows[k].number == n;
      } else {
        assert u.rows[id].number == n;
      }
    }
  }

  /** An update that keeps the number keeps the set of numbers and the
      invariant. */
  lemma UpdateSameNumber(l: Accounts, id: int, a: Account)
    requires UniqueNumbers(l) && id in l.rows && a.number == l.rows[id].number
    ensures UniqueNumbers(Update(l, Some(id), a).value)
    ensures Numbers(Update(l, Some(id), a).value) == Numbers(l)
  {
    forall k | k in l.rows && k != id
      ensures l.rows[k].number != a.number
    {
    }
    UpdateKeepsUnique(l, id, a);
  }

  /** Giving one account the number another account holds breaks the
      invariant: `updateAccount` alone does not protect it. */
  lemma UpdateCanDuplicate(l: Accounts, id: int, other: int, a: Account)
    requires id in l.rows && other in l.rows && id != other
    requires a.number == l.rows[other].number
    ensures !UniqueNumbers(Update(l, Some(id), a).value)
  {
    var u := Update(l, Some(id), a).value;
    assert u.rows[id].number == u.rows[other].number;
  }

  /** Removing an account keeps the numbers distinct and frees exactly its
      number. */
  lemma RemoveKeepsUnique(l: Accounts, id: int)
    requires UniqueNumbers(l) && id in l.rows
    ensures Remove(l, id).Ok? && UniqueNumbers(Remove(l, id).value)
    ensures Numbers(Remove(l, id).value) == Numbers(l) - {l.rows[id].number}
  {
    var u := Remove(l, id).value;
    forall n | n in Numbers(l) - {l.rows[id].number}
      ensures n in Numbers(u)
    {
      var k :| k in l.rows && l.rows[k].number == n;
      assert k != id && k in u.rows;
    }
  }
}
