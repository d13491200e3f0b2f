/** The label generators of data_mockery.py: `get_string_generator`, a thunk that always
    returns the value it captured, and `get_week_generator`, which advances a date cursor
    once per call and returns a prefix followed by the ISO 8601 week number of that date.

    The ISO week number itself (Python's `date.isocalendar()[1]`) is supplied by the caller
    as a function value `isoWeek`; this model does not compute it. */
module Labels {
  import opened Outcomes
  import opened DateCursor

  /** `get_string_generator(string)`: every call of the thunk returns the captured value. */
  function StringGenerator<T>(value: T): (gen: () -> T)
    ensures gen() == value
  {
    () => value
  }

  // ----- Python's str() of an int, and its inverse -----

  function DigitChar(d: nat): (c: char)
    requires d < 10
    ensures '0' <= c <= '9'
  {
    (48 + d) as char
  }

  function DigitValue(c: char): (d: nat)
    requires '0' <= c <= '9'
    ensures d < 10 && DigitChar(d) == c
  {
    (c as int - 48) as nat
  }

  predicate AllDigits(s: string) {
    forall i :: 0 <= i < |s| ==> '0' <= s[i] <= '9'
  }

  /** `str(n)` for n >= 0: the shortest decimal numeral, most significant digit first. */
  function NatToDecimal(n: nat): (s: string)
    ensures |s| >= 1 && AllDigits(s)
    ensures |s| > 1 ==> s[0] != '0'
    decreases n
  {
    if n < 10 then [DigitChar(n)] else NatToDecimal(n / 10) + [DigitChar(n % 10)]
  }

  /** `str(n)`: a minus sign before the numeral of |n| when n is negative. */
  function IntToDecimal(n: int): (s: string)
    ensures |s| >= 1 && (s[0] == '-' <==> n < 0)
  {
    if n < 0 then "-" + NatToDecimal(-n) else NatToDecimal(n)
  }

  /** After the optional sign, `str(n)` is a numeral: digits only, with no leading zero
      unless it is "0". */
  lemma IntToDecimalDigits(n: int)
    ensures var s := IntToDecimal(n);
      var numeral := if n < 0 then s[1..] else s;
      && |numeral| >= 1 && AllDigits(numeral)
      && (|numeral| > 1 ==> numeral[0] != '0')
  {
    if n < 0 {
      assert IntToDecimal(n)[1..] == NatToDecimal(-n);
    }
  }

  /** The value of a string of decimal digits. */
  function DecimalValue(s: string): nat
    requires AllDigits(s)
    decreases |s|
  {
    if s == [] then 0 else 10 * DecimalValue(s[..|s| - 1]) + DigitValue(s[|s| - 1])
  }

  /** Reads back an optionally signed decimal numeral; None for anything else. */
  function ParseInt(s: string): (r: Option<int>) {
    if |s| > 1 && s[0] == '-' && AllDigits(s[1..]) then Some(0 - DecimalValue(s[1..]))
    else if |s| > 0 && AllDigits(s) then Some(DecimalValue(s))
    else None
  }

  lemma {:induction false} NatToDecimalValue(n: nat)
    ensures DecimalValue(NatToDecimal(n)) == n
    decreases n
  {
    if n >= 10 {
      var s := NatToDecimal(n);
      var prefix := NatToDecimal(n / 10);
      assert s == prefix + [DigitChar(n % 10)];
      assert s[..|s| - 1] == prefix;
      NatToDecimalValue(n / 10);
    }
  }

  lemma ParseNegative(digits: string)
    requires |digits| >= 1 && AllDigits(digits)
    ensures ParseInt("-" + digits) == Some(0 - DecimalValue(digits))
  {
    var s := "-" + digits;
    assert s[0] == '-' && s[1..] == digits;
  }

  lemma ParseDigits(digits: string)
    requires |digits| >= 1 && AllDigits(digits)
    ensures ParseInt(digits) == Some(DecimalValue(digits))
  {
    assert digits[0] != '-';
  }

  /** `str` on ints loses nothing: the numeral reads back as the number it was made from. */
  lemma IntToDecimalRoundTrip(n: int)
    ensures ParseInt(IntToDecimal(n)) == Some(n)
  {
    if n < 0 {
      var digits := NatToDecimal(-n);
      assert IntToDecimal(n) == "-" + digits;
      ParseNegative(digits);
      NatToDecimalValue(-n);
    } else {
      var digits := NatToDecimal(n);
      assert IntToDecimal(n) == digits;
      ParseDigits(digits);
      NatToDecimalValue(n);
    }
  }

  // ----- Week labels -----

  /** The label `str(string) + str(week)`: the prefix, then a numeral that reads back as the
      week number. */
  function WeekLabel(prefix: string, week: int): (text: string)
    ensures |text| > |prefix| && text[..|prefix|] == prefix
    ensures ParseInt(text[|prefix|..]) == Some(week)
  {
    var numeral := IntToDecimal(week);
    IntToDecimalRoundTrip(week);
    assert (prefix + numeral)[..|prefix|] == prefix && (prefix + numeral)[|prefix|..] == numeral;
    prefix + numeral
  }

  /** Recovers the week number from a label made with the given prefix. */
  function ParseWeekLabel(prefix: string, text: string): Option<int> {
    if |prefix| <= |text| && text[..|prefix|] == prefix then ParseInt(text[|prefix|..])
    else None
  }

  /** A label starts with its prefix and the week number can be read back from the rest. */
  lemma WeekLabelRoundTrip(prefix: string, week: int)
    ensures var text := WeekLabel(prefix, week);
      && |text| > |prefix| && text[..|prefix|] == prefix
      && ParseWeekLabel(prefix, text) == Some(week)
  {
    var text := WeekLabel(prefix, week);
    assert text[..|prefix|] == prefix;
    assert text[|prefix|..] == IntToDecimal(week);
    IntToDecimalRoundTrip(week);
  }

  /** Two labels with the same prefix are equal exactly when their week numbers are. */
  lemma WeekLabelInjective(prefix: string, w1: int, w2: int)
    ensures WeekLabel(prefix, w1) == WeekLabel(prefix, w2) <==> w1 == w2
  {
    if WeekLabel(prefix, w1) == WeekLabel(prefix, w2) {
      WeekLabelRoundTrip(prefix, w1);
      WeekLabelRoundTrip(prefix, w2);
    }
  }

  /** `get_week_generator(string, date_gen)`: a closure over a prefix and a date cursor. */
  class WeekGenerator {
    const prefix: string
    const dates: DateGenerator
    const isoWeek: int -> int

    constructor (prefix: string, dates: DateGenerator, isoWeek: int -> int)
      ensures this.prefix == prefix && this.dates == dates && this.isoWeek == isoWeek
    {
      this.prefix := prefix;
      this.dates := dates;
      this.isoWeek := isoWeek;
    }

    /** `week_generator`: advances the bound date cursor exactly once and labels the date
        that call returned; an error from the cursor propagates and nothing moves. */
    method Next() returns (r: Result<string>)
      requires dates.Valid()
      modifies dates
      ensures dates.Valid()
      ensures match Advance(dates.recordsPerIncrement, old(dates.State()))
        case Ok(e) => r == Ok(WeekLabel(prefix, isoWeek(e.date))) && dates.State() == e.next
        case Err(err) => r == Err(err) && dates.State() == old(dates.State())
    {
      var currentDate := dates.Next();
      match currentDate
      case Err(e) =>
        r := Err(e);
      case Ok(d) =>
        r := Ok(prefix + IntToDecimal(isoWeek(d)));
    }
  }
}
