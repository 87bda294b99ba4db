/** The bank's customers: the client record, its Bean Validation
    constraints, and the substring search over client identifiers.

    Creating, reading, updating and removing clients is the generic keyed
    store of module Store, instantiated with `Client`.
 */
module Clients {
  import opened Wrappers
  import opened Text
  import Store

  /** A client; `birthDate` is a day number (days since some fixed epoch). */
  datatype Client = Client(
    clientId: string,
    name: string,
    email: string,
    phone: string,
    address: string,
    birthDate: int,
    pin: string)

  /** The @Size(max = 255) bound shared by the text columns. */
  const MaxText: nat := 255

  /** The constraints a client field can violate. */
  datatype Field = ClientIdField | NameField | EmailField | PhoneField | AddressField | BirthDateField | PinField

  /** @NotBlank together with @Size(max = 255). */
  predicate BoundedText(s: string) {
    NotBlank(s) && |s| <= MaxText
  }

  /** The phone pattern `^\+[0-9]+$`, matched against the whole string. */
  predicate PhonePattern(p: string) {
    |p| >= 2 && p[0] == '+' && AllDigits(p[1..])
  }

  /** The phone pattern accepts exactly a plus sign followed by one or
      more digits. */
  lemma PhonePatternIff(p: string)
    ensures PhonePattern(p) <==> exists d :: |d| > 0 && AllDigits(d) && p == "+" + d
  {
    if PhonePattern(p) {
      assert p == "+" + p[1..];
    }
    if d :| |d| > 0 && AllDigits(d) && p == "+" + d {
      assert p[1..] == d;
    }
  }

  /** The violated constraints of `c` on day `today`; a client is accepted
      exactly when the set is empty. */
  function Violations(c: Client, today: int): (r: set<Field>)
    ensures ClientIdField in r <==> !BoundedText(c.clientId)
    ensures NameField in r <==> !BoundedText(c.name)
    ensures EmailField in r <==> !BoundedText(c.email)
    ensures PhoneField in r <==> !(NotBlank(c.phone) && PhonePattern(c.phone))
    ensures AddressField in r <==> !BoundedText(c.address)
    ensures BirthDateField in r <==> today <= c.birthDate
    ensures PinField in r <==> !BoundedText(c.pin)
  {
    (if BoundedText(c.clientId) then {} else {ClientIdField})
    + (if BoundedText(c.name) then {} else {NameField})
    + (if BoundedText(c.email) then {} else {EmailField})
    + (if NotBlank(c.phone) && PhonePattern(c.phone) then {} else {PhoneField})
    + (if BoundedText(c.address) then {} else {AddressField})
    + (if c.birthDate < today then {} else {BirthDateField})
    + (if BoundedText(c.pin) then {} else {PinField})
  }

  predicate ValidClient(c: Client, today: int) {
    Violations(c, today) == {}
  }

  /** A valid phone number is never blank, so @NotBlank on the phone adds
      nothing to the pattern; and a client valid today stays valid later. */
  lemma ValidClientFacts(c: Client, today: int, later: int)
    requires ValidClient(c, today) && today <= later
    ensures PhonePattern(c.phone) && |c.phone| >= 2
    ensures c.birthDate < today
    ensures ValidClient(c, later)
  {
    assert PhoneField !in Violations(c, today);
    assert BirthDateField !in Violations(c, today);
    assert Violations(c, later) == Violations(c, today);
  }

  /** `findByClientId(q)`: every stored client whose clientID contains `q`. */
  function FindByClientId(t: Store.Table<Client>, q: string): (r: map<int, Client>)
    ensures forall k :: k in r <==> k in t.rows && Contains(t.rows[k].clientId, q)
    ensures forall k :: k in r ==> r[k] == t.rows[k]
  {
    map k | k in t.rows && Contains(t.rows[k].clientId, q) :: t.rows[k]
  }

  /** Containment is transitive: a string containing `q` contains every
      substring of `q`. */
  lemma ContainsTrans(s: string, q: string, p: string)
    requires Contains(s, q) && Contains(q, p)
    ensures Contains(s, p)
  {
    var i := IndexOf(s, q, 0).value;
    var j := IndexOf(q, p, 0).value;
    assert s[i..i + |q|] == q;
    assert s[i + j..i + j + |p|] == q[j..j + |p|];
    assert OccursAt(s, p, i + j);
    ContainsIff(s, p);
  }

  lemma ContainsEmpty(s: string)
    ensures Contains(s, "")
  {
    assert OccursAt(s, "", 0);
    ContainsIff(s, "");
  }

  lemma ContainsSelf(s: string)
    ensures Contains(s, s)
  {
    assert s[0..|s|] == s;
    assert OccursAt(s, s, 0);
    ContainsIff(s, s);
  }

  /** The empty query returns every client, a client is found by its own
      clientID, and narrowing the query never adds results. */
  lemma FindByClientIdSearch(t: Store.Table<Client>, q: string, narrower: string)
    requires Contains(narrower, q)
    ensures FindByClientId(t, "") == t.rows
    ensures forall k :: k in t.rows ==> k in FindByClientId(t, t.rows[k].clientId)
    ensures FindByClientId(t, narrower).Keys <= FindByClientId(t, q).Keys
  {
    forall k | k in t.rows
      ensures Contains(t.rows[k].clientId, "") && Contains(t.rows[k].clientId, t.rows[k].clientId)
    {
      ContainsEmpty(t.rows[k].clientId);
      ContainsSelf(t.rows[k].clientId);
    }
    forall k | k in FindByClientId(t, narrower)
      ensures k in FindByClientId(t, q)
    {
      ContainsTrans(t.rows[k].clientId, narrower, q);
    }
  }
}
