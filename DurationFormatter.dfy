/**
 * The placeholder duration formatter: a span of whole seconds becomes one
 * localized phrase ("5 минут", "5м") naming only the largest unit whose
 * quotient is positive.
 */
module DurationFormatting {
  import Decimal

  datatype Option<T> = None | Some(value: T)

  /** The calendar units the formatter can report, largest first. */
  datatype Unit = Years | Months | Weeks | Days | Hours | Minutes | Seconds

  /** The estimated length of a unit in seconds, as `ChronoUnit.getDuration()` gives it. */
  function Length(u: Unit): (r: nat)
    ensures r >= 1
    ensures u == Seconds <==> r == 1
  {
    match u
    case Years => 31556952
    case Months => 2629746
    case Weeks => 604800
    case Days => 86400
    case Hours => 3600
    case Minutes => 60
    case Seconds => 1
  }

  const FULL_UNITS: seq<Unit> := [Years, Months, Weeks, Days, Hours, Minutes, Seconds]
  const DAY_UNITS: seq<Unit> := [Days, Hours, Minutes, Seconds]

  /** Java's `Integer.MAX_VALUE`, the accuracy of a formatter built without one. */
  const INT_MAX_VALUE: int := 0x7fff_ffff

  /** A formatter's two final fields. `accuracy` is stored but never read. */
  datatype Formatter = Formatter(concise: bool, accuracy: int)

  /** The one-argument constructor: the given mode, with `Integer.MAX_VALUE` as the accuracy. */
  function NewFormatter(concise: bool): (r: Formatter)
    ensures r.concise == concise && r.accuracy == INT_MAX_VALUE
  {
    Formatter(concise, INT_MAX_VALUE)
  }

  const LONG: Formatter := NewFormatter(false)
  const CONCISE: Formatter := NewFormatter(true)
  const CONCISE_LOW_ACCURACY: Formatter := Formatter(true, 3)

  /** The three forms of a unit's name in the translation table. */
  datatype Form = Plural | Singular | Short

  /**
   * A template holds exactly one placeholder, `%s`, at its very start; what
   * follows it is the unit's name, which does not start with a digit.
   */
  predicate IsTemplate(t: string) {
    |t| >= 3 && t[0] == '%' && t[1] == 's' && !Decimal.IsDigit(t[2])
    && forall i :: 2 <= i < |t| ==> t[i] != '%'
  }

  /**
   * The translation table. It is total over unit and form, so every key the
   * formatter can build is present, and every entry is a well-formed template.
   */
  function Template(u: Unit, f: Form): (t: string)
    ensures IsTemplate(t)
  {
    match (u, f)
    case (Years, Plural) => "%s лет"
    case (Years, Singular) => "%s год"
    case (Years, Short) => "%sг"
    case (Months, Plural) => "%s месяцев"
    case (Months, Singular) => "%s месяц"
    case (Months, Short) => "%sмес"
    case (Weeks, Plural) => "%s недель"
    case (Weeks, Singular) => "%s неделя"
    case (Weeks, Short) => "%sнед"
    case (Days, Plural) => "%s дней"
    case (Days, Singular) => "%s день"
    case (Days, Short) => "%sд"
    case (Hours, Plural) => "%s часов"
    case (Hours, Singular) => "%s час"
    case (Hours, Short) => "%sч"
    case (Minutes, Plural) => "%s минут"
    case (Minutes, Singular) => "%s минута"
    case (Minutes, Short) => "%sм"
    case (Seconds, Plural) => "%s секунд"
    case (Seconds, Singular) => "%s секунда"
    case (Seconds, Short) => "%sс"
  }

  /** No two table entries share a template: a template names its unit and form. */
  lemma TemplateInjective(u1: Unit, f1: Form, u2: Unit, f2: Form)
    ensures Template(u1, f1) == Template(u2, f2) ==> u1 == u2 && f1 == f2
  {
    var t1, t2 := Template(u1, f1), Template(u2, f2);
    if (u1, f1) != (u2, f2) {
      assert t1[2..] != t2[2..];
    }
  }

  /**
   * `String.format(t, amount)` for a template whose placeholder leads. Nothing
   * is lost: the text opens with a run of digits that reads back as `amount`,
   * and the rest of the text is the template after its placeholder.
   */
  function Substitute(t: string, amount: nat): (r: string)
    requires IsTemplate(t)
    ensures Decimal.LeadingDigits(r) == |Decimal.ToDecimal(amount)|
    ensures Decimal.FromDecimal(r[..Decimal.LeadingDigits(r)]) == amount
    ensures r[Decimal.LeadingDigits(r)..] == t[2..]
  {
    var digits := Decimal.ToDecimal(amount);
    Decimal.LeadingDigitsOfConcat(digits, t[2..]);
    Decimal.FromToDecimal(amount);
    assert (digits + t[2..])[..|digits|] == digits;
    digits + t[2..]
  }

  /** Java's `long` division by a positive divisor: it truncates toward zero. */
  function TruncDiv(a: int, b: int): (q: int)
    requires b > 0
    ensures a >= 0 ==> 0 <= q && q * b <= a < q * b + b
    ensures a < 0 ==> q <= 0 && q * b - b < a <= q * b
    ensures q > 0 <==> a >= b
  {
    if a >= 0 then NatDivBounds(a, b); a / b
    else
      NatDivBounds(-a, b);
      var p := (-a) / b;
      assert -p * b == -(p * b);
      -p
  }

  lemma NatDivBounds(a: nat, b: int)
    requires b > 0
    ensures 0 <= a / b && (a / b) * b <= a < (a / b) * b + b
    ensures a / b > 0 <==> a >= b
  {
    var q := a / b;
    assert a == q * b + a % b;
    if q > 0 {
      assert q * b >= b;
    }
  }

  /**
   * `seconds / unit.getDuration().getSeconds()`: positive exactly when the
   * unit fits into the duration.
   */
  function Quotient(seconds: int, u: Unit): (q: int)
    ensures q > 0 <==> seconds >= Length(u)
  {
    TruncDiv(seconds, Length(u))
  }

  /** `i` is the first position in `units` whose quotient is positive. */
  predicate IsFirstPositive(units: seq<Unit>, seconds: int, i: int) {
    0 <= i < |units| && Quotient(seconds, units[i]) > 0
    && forall j :: 0 <= j < i ==> Quotient(seconds, units[j]) <= 0
  }

  /** The `for` loop of `format`: a first-match search over the ordering. */
  function FirstPositive(units: seq<Unit>, seconds: int): (r: Option<nat>)
    ensures r.Some? ==> IsFirstPositive(units, seconds, r.value)
    ensures r.None? ==> forall j :: 0 <= j < |units| ==> Quotient(seconds, units[j]) <= 0
  {
    if |units| == 0 then None
    else if Quotient(seconds, units[0]) > 0 then Some(0)
    else match FirstPositive(units[1..], seconds)
      case None => None
      case Some(i) => Some(i + 1)
  }

  /** The form `formatPart` picks. */
  function FormOf(concise: bool, amount: int): (f: Form)
    ensures f == Short <==> concise
    ensures f == Singular <==> !concise && amount == 1
    ensures f == Plural <==> !concise && amount != 1
  {
    if concise then Short else if amount == 1 then Singular else Plural
  }

  /** What a phrase says: one count, one unit, one form. */
  datatype Part = Part(amount: nat, unit: Unit, form: Form)

  /** The structured result of `format` together with the string it returns. */
  datatype Phrase = Phrase(part: Part, text: string)

  /** `String.format(TRANSLATIONS.get(key), amount)`: the count, then the name of its unit in its form. */
  function Render(p: Part): (r: string)
    ensures Decimal.LeadingDigits(r) == |Decimal.ToDecimal(p.amount)|
    ensures Decimal.FromDecimal(r[..Decimal.LeadingDigits(r)]) == p.amount
    ensures r[Decimal.LeadingDigits(r)..] == Template(p.unit, p.form)[2..]
  {
    Substitute(Template(p.unit, p.form), p.amount)
  }

  /** A rendered phrase determines its count, its unit and its form. */
  lemma RenderInjective(p1: Part, p2: Part)
    ensures Render(p1) == Render(p2) ==> p1 == p2
  {
    if Render(p1) == Render(p2) {
      var t1, t2 := Template(p1.unit, p1.form), Template(p2.unit, p2.form);
      Decimal.DigitsThenTextSplit(Decimal.ToDecimal(p1.amount), t1[2..], Decimal.ToDecimal(p2.amount), t2[2..]);
      Decimal.ToDecimalInjective(p1.amount, p2.amount);
      assert t1 == t1[..2] + t1[2..] && t2 == t2[..2] + t2[2..];
      TemplateInjective(p1.unit, p1.form, p2.unit, p2.form);
    }
  }

  /**
   * `formatPart(amount, unit)`: the short form in concise mode, otherwise the
   * singular for exactly one and the plural for any other count; the text reads
   * back as the count followed by that form of the unit's name.
   */
  function FormatPart(fmt: Formatter, amount: nat, u: Unit): (r: Phrase)
    ensures r.part.amount == amount && r.part.unit == u
    ensures r.part.form == Short <==> fmt.concise
    ensures r.part.form == Singular <==> !fmt.concise && amount == 1
    ensures Decimal.LeadingDigits(r.text) == |Decimal.ToDecimal(amount)|
    ensures Decimal.FromDecimal(r.text[..Decimal.LeadingDigits(r.text)]) == amount
    ensures r.text[Decimal.LeadingDigits(r.text)..] == Template(u, r.part.form)[2..]
  {
    var p := Part(amount, u, FormOf(fmt.concise, amount));
    Phrase(p, Render(p))
  }

  /** `format(units, duration)` for a duration of `seconds` whole seconds. */
  function FormatUnits(fmt: Formatter, units: seq<Unit>, seconds: int): (r: Phrase)
    ensures r.text == Render(r.part)
    ensures r.part.form == FormOf(fmt.concise, r.part.amount)
    ensures r.part.amount > 0 ==> r.part.unit in units
  {
    match FirstPositive(units, seconds)
    case Some(i) => FormatPart(fmt, Quotient(seconds, units[i]), units[i])
    case None => FormatPart(fmt, 0, Seconds)
  }

  /**
   * `format(duration)`: the full ordering, years down to seconds. From one
   * second up it counts the longest of the seven units that fits, at least
   * once; otherwise it reports zero seconds.
   */
  function Format(fmt: Formatter, seconds: int): (r: Phrase)
    ensures r.text == Render(r.part)
    ensures seconds >= 1 ==>
      r.part.amount >= 1 && r.part.amount * Length(r.part.unit) <= seconds < (r.part.amount + 1) * Length(r.part.unit)
      && forall v :: Length(v) <= seconds ==> Length(v) <= Length(r.part.unit)
    ensures seconds <= 0 ==> r.part == Part(0, Seconds, FormOf(fmt.concise, 0))
    ensures r.part.form == FormOf(fmt.concise, r.part.amount)
  {
    if seconds >= 1 then
      FullUnitsAlwaysSelect(fmt, seconds);
      FormatUnits(fmt, FULL_UNITS, seconds)
    else
      NonPositiveDurationIsZeroSeconds(fmt, FULL_UNITS, seconds);
      FormatUnits(fmt, FULL_UNITS, seconds)
  }

  // ---------------------------------------------------------------------
  // Unit selection

  /** The selected unit is the first one in the ordering with a positive quotient, counted by that quotient. */
  lemma SelectsFirstPositive(fmt: Formatter, units: seq<Unit>, seconds: int, i: int)
    requires IsFirstPositive(units, seconds, i)
    ensures FormatUnits(fmt, units, seconds).part.unit == units[i]
    ensures FormatUnits(fmt, units, seconds).part.amount == Quotient(seconds, units[i])
  {
    FirstPositiveFindsIt(units, seconds, i);
  }

  /** The search returns exactly the first position with a positive quotient. */
  lemma {:induction false} FirstPositiveFindsIt(units: seq<Unit>, seconds: int, i: int)
    requires IsFirstPositive(units, seconds, i)
    ensures FirstPositive(units, seconds) == Some(i)
  {
    if i > 0 {
      assert Quotient(seconds, units[0]) <= 0;
      assert IsFirstPositive(units[1..], seconds, i - 1) by {
        forall j | 0 <= j < i - 1
          ensures Quotient(seconds, units[1..][j]) <= 0
        {
          assert units[1..][j] == units[j + 1];
        }
      }
      FirstPositiveFindsIt(units[1..], seconds, i - 1);
    }
  }

  /** Conversely, a positive count always comes from the first unit with a positive quotient. */
  lemma SelectedIsFirstPositive(fmt: Formatter, units: seq<Unit>, seconds: int)
    ensures var p := FormatUnits(fmt, units, seconds).part;
      p.amount > 0 ==> exists i :: IsFirstPositive(units, seconds, i) && units[i] == p.unit && p.amount == Quotient(seconds, units[i])
  {
    var r := FirstPositive(units, seconds);
    if r.Some? {
      assert IsFirstPositive(units, seconds, r.value);
    }
  }

  /** Every unit before the selected one is longer than the whole duration; the selected one fits in it. */
  lemma EarlierUnitsAreLonger(units: seq<Unit>, seconds: int, i: int)
    requires IsFirstPositive(units, seconds, i)
    ensures Length(units[i]) <= seconds
    ensures forall j :: 0 <= j < i ==> seconds < Length(units[j])
  {
    forall j | 0 <= j < i
      ensures seconds < Length(units[j])
    {
      assert Quotient(seconds, units[j]) <= 0;
    }
  }

  /** With no positive quotient the phrase is zero seconds, in whichever form the mode picks. */
  lemma NoPositiveQuotientFallsBack(fmt: Formatter, units: seq<Unit>, seconds: int)
    requires forall j :: 0 <= j < |units| ==> Quotient(seconds, units[j]) <= 0
    ensures FormatUnits(fmt, units, seconds).part == Part(0, Seconds, FormOf(fmt.concise, 0))
  {
  }

  /** Zero and negative durations, over any ordering: "0 секунд" verbose, "0с" concise. */
  lemma NonPositiveDurationIsZeroSeconds(fmt: Formatter, units: seq<Unit>, seconds: int)
    requires seconds <= 0
    ensures FormatUnits(fmt, units, seconds).part == Part(0, Seconds, FormOf(fmt.concise, 0))
    ensures FormatUnits(fmt, units, seconds).text == if fmt.concise then "0с" else "0 секунд"
  {
    forall j | 0 <= j < |units|
      ensures Quotient(seconds, units[j]) <= 0
    {
      assert seconds < Length(units[j]);
    }
    NoPositiveQuotientFallsBack(fmt, units, seconds);
  }

  /** An ordering whose units get strictly shorter. */
  predicate Descending(units: seq<Unit>) {
    forall a, b :: 0 <= a < b < |units| ==> Length(units[a]) > Length(units[b])
  }

  /** Over a descending ordering the selected unit is the longest one of the ordering that fits. */
  lemma LongestFittingUnit(fmt: Formatter, units: seq<Unit>, seconds: int, v: Unit)
    requires Descending(units)
    requires v in units && Length(v) <= seconds
    ensures var p := FormatUnits(fmt, units, seconds).part;
      p.amount > 0 && p.unit in units && Length(v) <= Length(p.unit)
  {
    var k :| 0 <= k < |units| && units[k] == v;
    assert Quotient(seconds, units[k]) > 0;
    var r := FirstPositive(units, seconds);
    assert r.Some?;
    var i := r.value;
    assert i <= k;
    SelectsFirstPositive(fmt, units, seconds, i);
    if i < k {
      assert Length(units[i]) > Length(units[k]);
    }
  }

  lemma FullUnitsDescending()
    ensures Descending(FULL_UNITS) && Descending(DAY_UNITS)
  {
  }

  /**
   * Over a descending ordering of all seven units, at least one second always
   * names a unit: the longest that fits, counted by how many times it fits.
   */
  lemma CompleteOrderingAlwaysSelects(fmt: Formatter, units: seq<Unit>, seconds: int)
    requires Descending(units) && forall v :: v in units
    requires seconds >= 1
    ensures var p := FormatUnits(fmt, units, seconds).part;
      p.amount >= 1 && p.amount * Length(p.unit) <= seconds < (p.amount + 1) * Length(p.unit)
      && forall v :: Length(v) <= seconds ==> Length(v) <= Length(p.unit)
  {
    var p := FormatUnits(fmt, units, seconds).part;
    LongestFittingUnit(fmt, units, seconds, Seconds);
    SelectedIsFirstPositive(fmt, units, seconds);
    assert p.amount == TruncDiv(seconds, Length(p.unit));
    forall v | Length(v) <= seconds
      ensures Length(v) <= Length(p.unit)
    {
      LongestFittingUnit(fmt, units, seconds, v);
    }
  }

  /**
   * Over the full ordering, at least one second always names a unit: the
   * longest of all seven that fits, counted by how many times it fits.
   */
  lemma FullUnitsAlwaysSelect(fmt: Formatter, seconds: int)
    requires seconds >= 1
    ensures var p := FormatUnits(fmt, FULL_UNITS, seconds).part;
      p.amount >= 1 && p.amount * Length(p.unit) <= seconds < (p.amount + 1) * Length(p.unit)
      && forall v :: Length(v) <= seconds ==> Length(v) <= Length(p.unit)
  {
    FullUnitsDescending();
    forall v
      ensures v in FULL_UNITS
    {
      match v
      case Years => assert FULL_UNITS[0] == v;
      case Months => assert FULL_UNITS[1] == v;
      case Weeks => assert FULL_UNITS[2] == v;
      case Days => assert FULL_UNITS[3] == v;
      case Hours => assert FULL_UNITS[4] == v;
      case Minutes => assert FULL_UNITS[5] == v;
      case Seconds => assert FULL_UNITS[6] == v;
    }
    CompleteOrderingAlwaysSelects(fmt, FULL_UNITS, seconds);
  }

  /** The day-capped ordering never reports years, months or weeks. */
  lemma DayUnitsNeverLongerThanDays(fmt: Formatter, seconds: int)
    ensures FormatUnits(fmt, DAY_UNITS, seconds).part.unit in DAY_UNITS
  {
  }

  /** From one day up, the day-capped ordering reports whole days, however many weeks that is. */
  lemma DayUnitsCountDays(fmt: Formatter, seconds: int)
    requires seconds >= Length(Days)
    ensures FormatUnits(fmt, DAY_UNITS, seconds).part.unit == Days
    ensures FormatUnits(fmt, DAY_UNITS, seconds).part.amount == seconds / 86400
  {
    SelectsFirstPositive(fmt, DAY_UNITS, seconds, 0);
  }

  // ---------------------------------------------------------------------
  // Configuration

  /** `accuracy` is never read: two formatters that agree on `concise` agree on every input. */
  lemma AccuracyIsIgnored(concise: bool, a1: int, a2: int, units: seq<Unit>, seconds: int)
    ensures FormatUnits(Formatter(concise, a1), units, seconds) == FormatUnits(Formatter(concise, a2), units, seconds)
  {
  }

  lemma ConciseLowAccuracyIsConcise(seconds: int)
    ensures Format(CONCISE_LOW_ACCURACY, seconds) == Format(CONCISE, seconds)
  {
    AccuracyIsIgnored(true, 3, INT_MAX_VALUE, FULL_UNITS, seconds);
  }

  // ---------------------------------------------------------------------
  // Worked examples

  /** Under a minute the count is the seconds themselves: singular only for one second when verbose. */
  lemma UnderAMinute(fmt: Formatter, seconds: int)
    requires 1 <= seconds < 60
    ensures Format(fmt, seconds).part == Part(seconds, Seconds, FormOf(fmt.concise, seconds))
  {
    forall j | 0 <= j < 6
      ensures Quotient(seconds, FULL_UNITS[j]) <= 0
    {
      assert seconds < Length(FULL_UNITS[j]);
    }
    assert Quotient(seconds, Seconds) == seconds;
    SelectsFirstPositive(fmt, FULL_UNITS, seconds, 6);
  }

  lemma ZeroExamples()
    ensures Format(LONG, 0).text == "0 секунд" && Format(CONCISE, 0).text == "0с"
  {
    NonPositiveDurationIsZeroSeconds(LONG, FULL_UNITS, 0);
    NonPositiveDurationIsZeroSeconds(CONCISE, FULL_UNITS, 0);
  }

  /** From a minute up to an hour, the full ordering counts whole minutes. */
  lemma MinutesRange(fmt: Formatter, seconds: int)
    requires 60 <= seconds < 3600
    ensures Format(fmt, seconds).part == Part(seconds / 60, Minutes, FormOf(fmt.concise, seconds / 60))
  {
    assert IsFirstPositive(FULL_UNITS, seconds, 5);
    SelectsFirstPositive(fmt, FULL_UNITS, seconds, 5);
  }

  /** From an hour up to a day, the full ordering counts whole hours. */
  lemma HoursRange(fmt: Formatter, seconds: int)
    requires 3600 <= seconds < 86400
    ensures Format(fmt, seconds).part == Part(seconds / 3600, Hours, FormOf(fmt.concise, seconds / 3600))
  {
    assert IsFirstPositive(FULL_UNITS, seconds, 4);
    SelectsFirstPositive(fmt, FULL_UNITS, seconds, 4);
  }

  /** The text of a phrase is the count's digits followed by its unit's name in its form. */
  lemma RenderedAs(p: Part, digits: string, name: string)
    requires Decimal.ToDecimal(p.amount) == digits && Template(p.unit, p.form)[2..] == name
    ensures Render(p) == digits + name
  {
  }

  /** The text of `format`'s result is the rendering of the phrase it selected. */
  lemma FormattedAs(fmt: Formatter, seconds: int, p: Part, text: string)
    requires Format(fmt, seconds).part == p && Render(p) == text
    ensures Format(fmt, seconds).text == text
  {
  }

  /** The seconds entries of the table, as the worked examples below render them. */
  lemma SecondsPhrases()
    ensures Render(Part(1, Seconds, Singular)) == "1 секунда"
    ensures Render(Part(2, Seconds, Plural)) == "2 секунд"
  {
    RenderedAs(Part(1, Seconds, Singular), "1", " секунда");
    RenderedAs(Part(2, Seconds, Plural), "2", " секунд");
  }

  /** The minutes entries of the table, as the worked examples below render them. */
  lemma MinutesPhrases()
    ensures Render(Part(1, Minutes, Singular)) == "1 минута"
    ensures Render(Part(1, Minutes, Short)) == "1м"
    ensures Render(Part(5, Minutes, Short)) == "5м"
  {
    RenderedAs(Part(1, Minutes, Singular), "1", " минута");
    RenderedAs(Part(1, Minutes, Short), "1", "м");
    RenderedAs(Part(5, Minutes, Short), "5", "м");
  }

  /** The hours entries of the table, as the worked examples below render them. */
  lemma HoursPhrases()
    ensures Render(Part(1, Hours, Singular)) == "1 час"
    ensures Render(Part(1, Hours, Short)) == "1ч"
  {
    RenderedAs(Part(1, Hours, Singular), "1", " час");
    RenderedAs(Part(1, Hours, Short), "1", "ч");
  }

  /** One second is singular in verbose mode. */
  lemma OneSecondExample()
    ensures Format(LONG, 1).text == "1 секунда"
  {
    UnderAMinute(LONG, 1);
    SecondsPhrases();
    FormattedAs(LONG, 1, Part(1, Seconds, Singular), "1 секунда");
  }

  /** Two seconds are plural in verbose mode. */
  lemma TwoSecondsExample()
    ensures Format(LONG, 2).text == "2 секунд"
  {
    UnderAMinute(LONG, 2);
    SecondsPhrases();
    FormattedAs(LONG, 2, Part(2, Seconds, Plural), "2 секунд");
  }

  /** A minute drops the seconds: one minute, singular when verbose. */
  lemma OneMinuteLongExample()
    ensures Format(LONG, 60).text == "1 минута"
  {
    MinutesRange(LONG, 60);
    MinutesPhrases();
    FormattedAs(LONG, 60, Part(1, Minutes, Singular), "1 минута");
  }

  /** ... and short when concise. */
  lemma OneMinuteConciseExample()
    ensures Format(CONCISE, 60).text == "1м"
  {
    MinutesRange(CONCISE, 60);
    MinutesPhrases();
    FormattedAs(CONCISE, 60, Part(1, Minutes, Short), "1м");
  }

  /** Concise mode keeps the same template for any count; only the number varies. */
  lemma FiveMinutesExample()
    ensures Format(CONCISE, 300).text == "5м"
  {
    MinutesRange(CONCISE, 300);
    MinutesPhrases();
    FormattedAs(CONCISE, 300, Part(5, Minutes, Short), "5м");
  }

  /** One hour, one minute and one second is reported as one hour alone. */
  lemma OneHourLongExample()
    ensures Format(LONG, 3661).text == "1 час"
  {
    HoursRange(LONG, 3661);
    HoursPhrases();
    FormattedAs(LONG, 3661, Part(1, Hours, Singular), "1 час");
  }

  /** The same duration in concise mode. */
  lemma OneHourConciseExample()
    ensures Format(CONCISE, 3661).text == "1ч"
  {
    HoursRange(CONCISE, 3661);
    HoursPhrases();
    FormattedAs(CONCISE, 3661, Part(1, Hours, Short), "1ч");
  }
}
