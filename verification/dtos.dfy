/** The request bodies of the two transfer endpoints and their Bean
    Validation constraints. A missing JSON field is `None` (Java `null`).
 */
module Dtos {
  import opened Wrappers
  import opened Text

  /** Body of an internal transfer. */
  datatype TransferDto = TransferDto(targetAccountNumber: Option<string>, amount: Option<real>)

  /** Body of an external transfer. */
  datatype IbanTransferDto = IbanTransferDto(targetAccountIban: Option<string>, amount: Option<real>, currency: Option<string>)

  /** The constraints a transfer body can violate. */
  datatype DtoField = TargetField | AmountField | CurrencyField

  /** @NotBlank: present, and not only whitespace. */
  predicate PresentNotBlank(s: Option<string>) {
    s.Some? && NotBlank(s.value)
  }

  /** @NotNull @Positive. */
  predicate PresentPositive(a: Option<real>) {
    a.Some? && a.value > 0.0
  }

  /** The IBAN pattern
      `[a-zA-Z]{2}[0-9]{2}[a-zA-Z0-9]{4}[0-9]{7}([a-zA-Z0-9]?){0,16}`,
      matched against the whole string: two letters, two digits, four
      alphanumerics, seven digits, then at most sixteen alphanumerics. */
  predicate IbanShaped(s: string) {
    15 <= |s| <= 31
    && AllLetters(s[..2]) && AllDigits(s[2..4]) && AllAlnum(s[4..8])
    && AllDigits(s[8..15]) && AllAlnum(s[15..])
  }

  /** The five groups of the IBAN pattern, in order. */
  predicate IbanGroups(country: string, check: string, bank: string, account: string, rest: string) {
    |country| == 2 && AllLetters(country) && |check| == 2 && AllDigits(check)
    && |bank| == 4 && AllAlnum(bank) && |account| == 7 && AllDigits(account)
    && |rest| <= 16 && AllAlnum(rest)
  }

  /** The pattern read group by group: a string matches exactly when it is
      the concatenation of the five groups. */
  lemma IbanShapedIff(s: string)
    ensures IbanShaped(s) <==>
      exists country, check, bank, account, rest ::
        IbanGroups(country, check, bank, account, rest) && s == country + check + bank + account + rest
  {
    if IbanShaped(s) {
      assert s == s[..2] + s[2..4] + s[4..8] + s[8..15] + s[15..];
      assert IbanGroups(s[..2], s[2..4], s[4..8], s[8..15], s[15..]);
    }
    if country, check, bank, account, rest :|
        IbanGroups(country, check, bank, account, rest) && s == country + check + bank + account + rest {
      GroupsShaped(country, check, bank, account, rest);
    }
  }

  lemma GroupsShaped(country: string, check: string, bank: string, account: string, rest: string)
    requires IbanGroups(country, check, bank, account, rest)
    ensures IbanShaped(country + check + bank + account + rest)
  {
    var s := country + check + bank + account + rest;
    assert s[..2] == country;
    assert s[2..4] == check;
    assert s[4..8] == bank;
    assert s[8..15] == account;
    assert s[15..] == rest;
  }

  /** Violations of an internal transfer body; it is accepted exactly when
      there are none. The target number has no format beyond not being
      blank. */
  function TransferViolations(d: TransferDto): (r: set<DtoField>)
    ensures TargetField in r <==> !PresentNotBlank(d.targetAccountNumber)
    ensures AmountField in r <==> !PresentPositive(d.amount)
    ensures CurrencyField !in r
  {
    (if PresentNotBlank(d.targetAccountNumber) then {} else {TargetField})
    + (if PresentPositive(d.amount) then {} else {AmountField})
  }

  /** Violations of an external transfer body. */
  function IbanTransferViolations(d: IbanTransferDto): (r: set<DtoField>)
    ensures TargetField in r <==>
      !(PresentNotBlank(d.targetAccountIban) && IbanShaped(d.targetAccountIban.value))
    ensures AmountField in r <==> !PresentPositive(d.amount)
    ensures CurrencyField in r <==> !(PresentNotBlank(d.currency) && |d.currency.value| == 3)
  {
    (if PresentNotBlank(d.targetAccountIban) && IbanShaped(d.targetAccountIban.value) then {} else {TargetField})
    + (if PresentPositive(d.amount) then {} else {AmountField})
    + (if PresentNotBlank(d.currency) && |d.currency.value| == 3 then {} else {CurrencyField})
  }

  /** An IBAN-shaped string starts with a letter, so it is never blank:
      @NotBlank adds nothing to the pattern for a present value. */
  lemma IbanShapedNotBlank(s: string)
    requires IbanShaped(s)
    ensures NotBlank(s)
  {
    assert IsLetter(s[..2][0]);
    assert !IsTrimmed(s[0]);
  }

  /** The pattern only looks at character classes: the two check digits
      can be replaced by any others (no ISO 7064 mod-97 check), so of
      "NL60…" and "NL61…" both or neither are accepted. */
  lemma CheckDigitsUnchecked(s: string, d1: char, d2: char)
    requires |s| >= 4 && IsDigit(d1) && IsDigit(d2)
    ensures IbanShaped(s) ==> IbanShaped(s[..2] + [d1, d2] + s[4..])
  {
    var t := s[..2] + [d1, d2] + s[4..];
    assert t[..2] == s[..2];
    assert t[4..] == s[4..];
    assert t[2..4] == [d1, d2] && |t| == |s|;
    assert AllDigits(t[2..4]);
    if IbanShaped(s) {
      assert t[4..8] == s[4..8] && t[8..15] == s[8..15] && t[15..] == s[15..] by {
        assert t[4..][..4] == t[4..8] && s[4..][..4] == s[4..8];
        assert t[4..][4..11] == t[8..15] && s[4..][4..11] == s[8..15];
        assert t[4..][11..] == t[15..] && s[4..][11..] == s[15..];
      }
    }
  }

  /** A Dutch example IBAN is accepted; an empty target number is
      rejected, and so is a missing or non-positive amount. */
  lemma Examples(a: real)
    ensures IbanShaped("NL60ABNA6044978370")
    ensures TargetField in TransferViolations(TransferDto(Some(""), Some(a)))
    ensures a <= 0.0 ==> AmountField in TransferViolations(TransferDto(Some("1"), Some(a)))
    ensures AmountField in IbanTransferViolations(IbanTransferDto(Some("NL60ABNA6044978370"), None, Some("EUR")))
  {
    var s := "NL60ABNA6044978370";
    assert s[..2] == "NL" && s[2..4] == "60" && s[4..8] == "ABNA";
    assert s[8..15] == "6044978" && s[15..] == "370";
  }

  /** An accepted external transfer body names an IBAN that fits the
      34-character account-number column and a three-letter currency. */
  lemma AcceptedIbanTransfer(d: IbanTransferDto)
    requires IbanTransferViolations(d) == {}
    ensures 15 <= |d.targetAccountIban.value| <= 31
    ensures NotBlank(d.targetAccountIban.value) && NotBlank(d.currency.value) && |d.currency.value| == 3
    ensures d.amount.value > 0.0
  {
    assert TargetField !in IbanTransferViolations(d);
    assert CurrencyField !in IbanTransferViolations(d);
    assert AmountField !in IbanTransferViolations(d);
  }
}
