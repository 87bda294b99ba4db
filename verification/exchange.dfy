/** Exchange rates against the forint (HUF), read from the central bank's
    feed, and the cross rate and conversion built on them.

    The SOAP call is not modelled; each operation receives the reply the
    call would have produced: the feed text, or a fault.
 */
module Exchange {
  import opened Wrappers
  import opened Text
  import opened Decimal

  /** What `getCurrentExchangeRates()` yields: the feed text, or the SOAP
      fault the service catches and logs. */
  datatype SoapReply = Reply(text: string) | Fault

  /** The end tag that separates the feed's entries. */
  const RateEnd: string := "</Rate>"

  /** The currency code in double quotes, as it appears in an entry. */
  function Quoted(ccy: string): (r: string)
    ensures |r| == |ccy| + 2
  {
    "\"" + ccy + "\""
  }

  /** `findAny` over the entries containing `p`, taken as the first one. */
  function FirstContaining(segs: seq<string>, p: string): (r: Option<nat>)
    ensures r.Some? ==> r.value < |segs| && Contains(segs[r.value], p)
    ensures r.Some? ==> forall j :: 0 <= j < r.value ==> !Contains(segs[j], p)
    ensures r.None? ==> forall j :: 0 <= j < |segs| ==> !Contains(segs[j], p)
  {
    if |segs| == 0 then None
    else if Contains(segs[0], p) then Some(0)
    else match FirstContaining(segs[1..], p)
      case None => None
      case Some(j) => Some(j + 1)
  }

  /** `parseExchangeRatesResponse`: finds the first `</Rate>`-separated
      entry mentioning `"CCY"`, takes what follows `"CCY">` in it, turns
      decimal commas into points and parses the number. */
  function ParseRate(response: string, ccy: string): (r: Result<real>)
    ensures r.Err? ==> r.error in {IllegalArgument, IndexOutOfBounds, NumberFormat}
    ensures r == Err(IllegalArgument) <==>
      (forall k :: 0 <= k < |Split(response, RateEnd)| ==> !Contains(Split(response, RateEnd)[k], Quoted(ccy)))
  {
    var entries := Split(response, RateEnd);
    match FirstContaining(entries, Quoted(ccy))
    case None => Err(IllegalArgument)
    case Some(i) =>
      var parts := Split(entries[i], Quoted(ccy) + ">");
      if |parts| < 2 then Err(IndexOutOfBounds)
      else
        match ParseDouble(ReplaceChar(parts[1], ',', '.'))
        case None => Err(NumberFormat)
        case Some(v) => Ok(v)
  }

  /** A feed that never mentions the quoted code is refused with
      IllegalArgument. */
  lemma UnknownCurrency(response: string, ccy: string)
    requires !Contains(response, Quoted(ccy))
    ensures ParseRate(response, ccy) == Err(IllegalArgument)
  {
    var entries := Split(response, RateEnd);
    var found := FirstContaining(entries, Quoted(ccy));
    if found.Some? {
      SplitContains(response, RateEnd, Quoted(ccy), found.value);
      assert false;
    }
  }

  /** A successful parse read the quoted code somewhere in the feed. */
  lemma ParsedRateWasQuoted(response: string, ccy: string)
    requires ParseRate(response, ccy).Ok?
    ensures Contains(response, Quoted(ccy))
  {
    var entries := Split(response, RateEnd);
    var i := FirstContaining(entries, Quoted(ccy)).value;
    SplitContains(response, RateEnd, Quoted(ccy), i);
  }

  /** The end tag cannot overlap itself. */
  lemma RateEndNoBorder()
    ensures NoBorder(RateEnd)
  {
    forall m | 1 <= m < |RateEnd|
      ensures Disagrees(RateEnd, m)
    {
      assert RateEnd[m + 0] != RateEnd[0];
    }
  }

  /** `"CCY">` cannot overlap itself when the code is made of letters: its
      only other quote is followed by `>`, which never follows the first. */
  lemma QuotedTagNoBorder(ccy: string)
    requires AllLetters(ccy)
    ensures NoBorder(Quoted(ccy) + ">")
  {
    var p := Quoted(ccy) + ">";
    assert p[0] == '"' && p[|ccy| + 1] == '"' && p[|ccy| + 2] == '>';
    assert forall k :: 1 <= k <= |ccy| ==> p[k] == ccy[k - 1];
    forall m | 1 <= m < |p|
      ensures Disagrees(p, m)
    {
      if m == |ccy| + 1 {
        assert p[m + 1] != p[1];
      } else {
        assert p[m + 0] != p[0];
      }
    }
  }

  /** Entry text that can neither open a tag nor quote a code: no `<` and
      no `"`. Numerals, with or without a decimal comma, are such text. */
  predicate PlainText(num: string) {
    forall k :: 0 <= k < |num| ==> num[k] != '<' && num[k] != '"'
  }

  /** An entry made of a prefix, the tag `"CCY">` and a numeral holds no
      end tag when the prefix does not, so it is the feed's first piece. */
  lemma {:induction false} EntryFirst(pre: string, ccy: string, num: string, post: string)
    requires AllLetters(ccy) && PlainText(num) && |num| > 0
    requires !Contains(pre, RateEnd)
    ensures var e := pre + (Quoted(ccy) + ">") + num;
      |Split(e + RateEnd + post, RateEnd)| > 0 && Split(e + RateEnd + post, RateEnd)[0] == e
  {
    var tag := Quoted(ccy) + ">";
    var e := pre + tag + num;
    assert forall k :: 1 <= k <= |ccy| ==> tag[k] == ccy[k - 1];
    assert forall k :: 0 <= k < |tag + num| ==> (tag + num)[k] != '<' by {
      forall k | 0 <= k < |tag + num|
        ensures (tag + num)[k] != '<'
      {
        if k >= |tag| {
          assert (tag + num)[k] == num[k - |tag|];
        }
      }
    }
    assert e == pre + (tag + num);
    ConcatNoContains(pre, tag + num, RateEnd);
    RateEndNoBorder();
    SplitHead(e, RateEnd, post);
  }

  /** Splitting such an entry at `"CCY">` leaves the prefix and the
      numeral, provided the prefix does not mention the code. */
  lemma {:induction false} EntryParts(pre: string, ccy: string, num: string)
    requires AllLetters(ccy) && PlainText(num) && |num| > 0
    requires !Contains(pre, Quoted(ccy))
    ensures Contains(pre + (Quoted(ccy) + ">") + num, Quoted(ccy))
    ensures Split(pre + (Quoted(ccy) + ">") + num, Quoted(ccy) + ">") == [pre, num]
  {
    var q := Quoted(ccy);
    var tag := q + ">";
    var e := pre + tag + num;
    assert e[|pre|..|pre| + |q|] == q;
    assert OccursAt(e, q, |pre|);
    ContainsIff(e, q);
    ExtensionNoContains(pre, q, ">");
    NoCharNoContains(num, tag, 0);
    QuotedTagNoBorder(ccy);
    SplitPair(pre, tag, num);
  }

  /** A numeral with a decimal comma reads, once the comma is a point, as
      the value of its digits. */
  lemma {:induction false} CommaNumeralValue(whole: string, frac: string)
    requires |whole| > 0 && AllDigits(whole) && AllDigits(frac)
    ensures PlainText(whole + "," + frac)
    ensures ParseDouble(ReplaceChar(whole + "," + frac, ',', '.')) == Some(DigitsValue(whole) as real + Fraction(frac))
  {
    var num := whole + "," + frac;
    assert ReplaceChar(num, ',', '.') == whole + "." + frac;
    ParseNumeral(whole, frac);
  }

  /** The entry `…"CCY">num</Rate>`, with nothing ahead of it mentioning
      the code or closing an entry, yields whatever `parseDouble` makes of
      `num` with its commas turned into points, and NumberFormat exactly when
      that text is not a signed decimal numeral. */
  lemma {:induction false} ParseRateEntry(pre: string, ccy: string, num: string, post: string)
    requires AllLetters(ccy)
    requires !Contains(pre, Quoted(ccy)) && !Contains(pre, RateEnd)
    requires |num| > 0 && PlainText(num)
    ensures var r := ParseRate(pre + Quoted(ccy) + ">" + num + RateEnd + post, ccy);
      var v := ParseDouble(ReplaceChar(num, ',', '.'));
      && (r.Ok? <==> v.Some?)
      && (r.Ok? ==> r.value == v.value)
      && (r.Err? ==> r.error == NumberFormat)
    ensures ParseRate(pre + Quoted(ccy) + ">" + num + RateEnd + post, ccy) == Err(NumberFormat)
            <==> !SignedNumeral(Trim(ReplaceChar(num, ',', '.')))
  {
    var q := Quoted(ccy);
    var e := pre + (q + ">") + num;
    var response := pre + q + ">" + num + RateEnd + post;
    assert response == e + RateEnd + post;
    EntryFirst(pre, ccy, num, post);
    EntryParts(pre, ccy, num);
    var entries := Split(response, RateEnd);
    assert FirstContaining(entries, q) == Some(0);
    ParseDoubleIff(ReplaceChar(num, ',', '.'));
  }

  /** Round trip of the feed: an entry `…"CCY">whole,frac</Rate>` parses to
      the number its digits denote, the decimal comma read as a point. */
  lemma {:induction false} ParseRateRoundTrip(pre: string, ccy: string, whole: string, frac: string, post: string)
    requires AllLetters(ccy)
    requires !Contains(pre, Quoted(ccy)) && !Contains(pre, RateEnd)
    requires |whole| > 0 && AllDigits(whole) && AllDigits(frac)
    ensures ParseRate(pre + Quoted(ccy) + ">" + (whole + "," + frac) + RateEnd + post, ccy)
            == Ok(DigitsValue(whole) as real + Fraction(frac))
  {
    CommaNumeralValue(whole, frac);
    ParseRateEntry(pre, ccy, whole + "," + frac, post);
  }

  /** An entry that ends right after `"CCY">` leaves nothing for `split[1]`:
      IndexOutOfBounds, before any number is read. */
  lemma {:induction false} ParseRateNoNumber(pre: string, ccy: string, post: string)
    requires AllLetters(ccy)
    requires !Contains(pre, Quoted(ccy)) && !Contains(pre, RateEnd)
    ensures ParseRate(pre + Quoted(ccy) + ">" + RateEnd + post, ccy) == Err(IndexOutOfBounds)
  {
    var q := Quoted(ccy);
    var tag := q + ">";
    var e := pre + tag;
    var response := pre + q + ">" + RateEnd + post;
    assert response == e + RateEnd + post;
    assert forall k :: 1 <= k <= |ccy| ==> tag[k] == ccy[k - 1];
    ConcatNoContains(pre, tag, RateEnd);
    RateEndNoBorder();
    SplitHead(e, RateEnd, post);
    assert e[|pre|..|pre| + |q|] == q;
    assert OccursAt(e, q, |pre|);
    ContainsIff(e, q);
    var entries := Split(response, RateEnd);
    assert FirstContaining(entries, q) == Some(0);
    ExtensionNoContains(pre, q, ">");
    QuotedTagNoBorder(ccy);
    SplitTrailing(pre, tag);
  }

  /** `getCurrentHufToCurrencyRate`: forints per unit of `ccy`. "HUF" is 1
      without consulting the feed; a fault yields a missing rate (Java
      `null`), not an exception; otherwise the parsed rate or its failure. */
  function HufRate(soap: SoapReply, ccy: string): (r: Result<Option<real>>)
    ensures ccy == "HUF" ==> r == Ok(Some(1.0))
    ensures ccy != "HUF" && soap.Fault? ==> r == Ok(None)
    ensures ccy != "HUF" && soap.Reply? ==> (r.Ok? <==> ParseRate(soap.text, ccy).Ok?)
    ensures ccy != "HUF" && soap.Reply? && r.Ok? ==> r.value == Some(ParseRate(soap.text, ccy).value)
    ensures ccy != "HUF" && soap.Reply? && r.Err? ==> r.error == ParseRate(soap.text, ccy).error
  {
    if ccy == "HUF" then Ok(Some(1.0))
    else match soap
      case Fault => Ok(None)
      case Reply(text) =>
        var v :- ParseRate(text, ccy);
        Ok(Some(v))
  }

  /** A currency whose rate the feed yields as the number `x`. */
  predicate Quotes(soap: SoapReply, ccy: string, x: real) {
    HufRate(soap, ccy) == Ok(Some(x))
  }

  /** A feed reply quotes every non-forint currency its entry gives,
      at the value of that entry's digits. */
  lemma {:induction false} FeedQuotes(pre: string, ccy: string, whole: string, frac: string, post: string)
    requires ccy != "HUF" && AllLetters(ccy)
    requires !Contains(pre, Quoted(ccy)) && !Contains(pre, RateEnd)
    requires |whole| > 0 && AllDigits(whole) && AllDigits(frac)
    ensures Quotes(Reply(pre + Quoted(ccy) + ">" + (whole + "," + frac) + RateEnd + post), ccy,
                   DigitsValue(whole) as real + Fraction(frac))
  {
    ParseRateRoundTrip(pre, ccy, whole, frac, post);
  }

  /** The opening of the dollar's entry mentions neither the quoted code
      nor the end tag. */
  lemma DollarOpening()
    ensures !Contains("<Rate unit=\"1\" curr=", Quoted("USD"))
    ensures !Contains("<Rate unit=\"1\" curr=", RateEnd)
  {
    var opening := "<Rate unit=\"1\" curr=";
    assert Quoted("USD")[1] == 'U' && 'U' !in opening;
    NoCharNoContains(opening, Quoted("USD"), 1);
    assert RateEnd[1] == '/' && '/' !in opening;
    NoCharNoContains(opening, RateEnd, 1);
  }

  lemma DollarDigits()
    ensures AllDigits("300") && AllDigits("5")
    ensures DigitsValue("300") as real + Fraction("5") == 300.5
  {
    assert DigitsValue("300") == 300 by {
      assert "300"[..2] == "30" && "30"[..1] == "3" && "3"[..0] == "";
    }
    assert Fraction("5") == 0.5 by {
      assert "5"[1..] == "";
    }
  }

  /** The central bank's reply holding only the dollar's entry. */
  const DollarFeed: SoapReply :=
    Reply("<Rate unit=\"1\" curr=" + Quoted("USD") + ">" + ("300" + "," + "5") + RateEnd + "")

  /** An entry as the central bank writes it,
      `<Rate unit="1" curr="USD">300,5</Rate>`: the dollar at 300.5
      forints. */
  lemma DollarEntry()
    ensures Quotes(Reply("<Rate unit=\"1\" curr=" + Quoted("USD") + ">" + ("300" + "," + "5") + RateEnd + ""), "USD", 300.5)
  {
    DollarOpening();
    DollarDigits();
    FeedQuotes("<Rate unit=\"1\" curr=", "USD", "300", "5", "");
  }

  /** A rate that was fetched and is not null. */
  predicate Known(q: Result<Option<real>>) {
    q.Ok? && q.value.Some?
  }

  /** `rateA / rateB` on two fetched HUF rates: a fetch failure propagates,
      `rateA`'s first; a null rate fails at unboxing (NullPointer); a zero
      divisor would make the Double infinite or NaN (NonFinite). */
  function Quotient(a: Result<Option<real>>, b: Result<Option<real>>): (r: Result<real>)
    ensures r.Ok? <==> Known(a) && Known(b) && b.value.value != 0.0
    ensures r.Ok? ==> r.value == a.value.value / b.value.value
    ensures a.Err? ==> r == Err(a.error)
    ensures a.Ok? && b.Err? ==> r == Err(b.error)
    ensures a.Ok? && b.Ok? && (a.value.None? || b.value.None?) ==> r == Err(NullPointer)
    ensures Known(a) && Known(b) && b.value.value == 0.0 ==> r == Err(NonFinite)
  {
    var x :- a;
    var y :- b;
    if x.None? || y.None? then Err(NullPointer)
    else if y.value == 0.0 then Err(NonFinite)
    else Ok(x.value / y.value)
  }

  /** `getCurrentCurrencyToCurrencyRate(from, to)`: units of `to` per unit
      of `from`, the quotient of the two HUF rates, `from`'s fetched first. */
  function Rate(soap: SoapReply, from: string, to: string): (r: Result<real>)
    ensures from == "HUF" && to == "HUF" ==> r == Ok(1.0)
    ensures soap.Fault? && (from != "HUF" || to != "HUF") ==> r == Err(NullPointer)
    ensures r.Ok? ==> Known(HufRate(soap, from)) && Known(HufRate(soap, to))
  {
    Quotient(HufRate(soap, from), HufRate(soap, to))
  }

  /** The amount times a rate, or the rate's failure. */
  function Scale(amount: real, rate: Result<real>): (r: Result<real>)
    ensures r.Ok? <==> rate.Ok?
    ensures r.Ok? ==> r.value == amount * rate.value
    ensures r.Err? ==> r.error == rate.error
  {
    var x :- rate;
    Ok(amount * x)
  }

  /** `fromCurrencyToCurrencyConversion`: the amount times the cross rate. */
  function Convert(soap: SoapReply, amount: real, from: string, to: string): (r: Result<real>)
    ensures from == "HUF" && to == "HUF" ==> r == Ok(amount)
    ensures r.Ok? <==> Rate(soap, from, to).Ok?
    ensures r.Ok? ==> r.value == amount * Rate(soap, from, to).value
    ensures r.Err? ==> r.error == Rate(soap, from, to).error
  {
    Scale(amount, Rate(soap, from, to))
  }

  lemma ScaleOk(amount: real, x: real)
    ensures Scale(amount, Ok(x)) == Ok(amount * x)
  {
    var r := Scale(amount, Ok(x));
    assert r.Ok? && r.value == amount * x;
  }

  /** The cross rate of two quoted currencies, the divisor non-zero. */
  lemma RateOfQuotes(soap: SoapReply, x: string, y: string, a: real, b: real)
    requires Quotes(soap, x, a) && Quotes(soap, y, b) && b != 0.0
    ensures Rate(soap, x, y) == Ok(a / b)
  {
  }

  /** A currency quoted against itself has rate 1, and converting to it
      changes nothing. */
  lemma QuotientSelf(a: real, amount: real)
    requires a != 0.0
    ensures Quotient(Ok(Some(a)), Ok(Some(a))) == Ok(1.0)
    ensures Scale(amount, Quotient(Ok(Some(a)), Ok(Some(a)))) == Ok(amount)
  {
    assert a / a == 1.0;
  }

  /** The two cross rates of a pair are reciprocal, so converting there
      and back returns the amount. */
  lemma QuotientInverse(a: real, b: real, amount: real)
    requires a != 0.0 && b != 0.0
    ensures Quotient(Ok(Some(a)), Ok(Some(b))).value * Quotient(Ok(Some(b)), Ok(Some(a))).value == 1.0
    ensures var back := Scale(Scale(amount, Quotient(Ok(Some(a)), Ok(Some(b)))).value, Quotient(Ok(Some(b)), Ok(Some(a))));
      back.Ok? && back.value == amount
  {
    Reciprocal(a, b, amount);
    assert Quotient(Ok(Some(a)), Ok(Some(b))) == Ok(a / b);
    assert Quotient(Ok(Some(b)), Ok(Some(a))) == Ok(b / a);
    ScaleTwice(amount, a / b, b / a);
  }

  lemma ScaleTwice(amount: real, x: real, y: real)
    ensures var r := Scale(Scale(amount, Ok(x)).value, Ok(y));
      r.Ok? && r.value == amount * x * y
  {
    ScaleOk(amount, x);
    ScaleOk(amount * x, y);
  }

  lemma Reciprocal(a: real, b: real, amount: real)
    requires a != 0.0 && b != 0.0
    ensures (a / b) * (b / a) == 1.0
    ensures amount * (a / b) * (b / a) == amount
  {
    assert (a / b) * (b / a) == (a * b) / (b * a);
  }

  /** Cross rates compose: going through a third currency gives the direct
      rate. */
  lemma QuotientChain(a: real, b: real, c: real)
    requires b != 0.0 && c != 0.0
    ensures Quotient(Ok(Some(a)), Ok(Some(b))).value * Quotient(Ok(Some(b)), Ok(Some(c))).value
            == Quotient(Ok(Some(a)), Ok(Some(c))).value
  {
    assert (1.0 / b) * b == 1.0;
    calc {
      (a / b) * (b / c);
      (a * (1.0 / b)) * (b * (1.0 / c));
      a * ((1.0 / b) * b) * (1.0 / c);
      a * (1.0 / c);
      a / c;
    }
  }

  /** Applied to the feed: a quoted currency has rate 1 against itself. */
  lemma RateSelf(soap: SoapReply, x: string, a: real)
    requires Quotes(soap, x, a) && a != 0.0
    ensures Rate(soap, x, x) == Ok(1.0)
  {
    RateOfQuotes(soap, x, x, a, a);
    QuotientSelf(a, 0.0);
  }

  /** Between forints and a quoted currency the cross rate is the quote or
      its reciprocal. */
  lemma RateAgainstHuf(soap: SoapReply, ccy: string, a: real)
    requires Quotes(soap, ccy, a) && a != 0.0
    ensures Rate(soap, ccy, "HUF") == Ok(a)
    ensures Rate(soap, "HUF", ccy) == Ok(1.0 / a)
  {
    assert Quotes(soap, "HUF", 1.0);
    RateOfQuotes(soap, ccy, "HUF", a, 1.0);
    RateOfQuotes(soap, "HUF", ccy, 1.0, a);
  }

  /** On that reply a dollar buys 300.5 forints. */
  lemma DollarToForint()
    ensures Rate(DollarFeed, "USD", "HUF") == Ok(300.5)
  {
    DollarEntry();
    RateAgainstHuf(DollarFeed, "USD", 300.5);
  }

  /** A forint buys the reciprocal: 300.5 times the rate is one dollar. */
  lemma ForintToDollar()
    ensures Rate(DollarFeed, "HUF", "USD").Ok?
    ensures Rate(DollarFeed, "HUF", "USD").value * 300.5 == 1.0
  {
    DollarEntry();
    RateAgainstHuf(DollarFeed, "USD", 300.5);
  }

  /** Converting 2 dollars gives 601 forints. */
  lemma DollarConversion()
    ensures Convert(DollarFeed, 2.0, "USD", "HUF") == Ok(601.0)
  {
    DollarToForint();
  }
}
