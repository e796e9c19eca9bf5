/**
 * `formatRelativeDate` of the citations panel: how long ago a source was
 * published, in words. The clock and the calendar are not modelled: the
 * function takes the milliseconds from the publication date to now, which
 * the original computes with `Date`.
 */
module RelativeDate {
  import opened Wrappers
  import opened JsText
  import opened ChatTypes

  /** `1000 * 60 * 60 * 24`. */
  const MsPerDay: nat := 86400000

  /** The bucket an age in whole days falls in, with the count it is shown with. */
  datatype Age = Today | Yesterday | Days(n: nat) | Weeks(n: nat) | Months(n: nat) | Years(n: nat)

  /**
   * The buckets: under one day, one day, 2 to 6 days, then whole weeks
   * under 30 days, whole 30-day months under 365 days, whole 365-day years.
   */
  function Bucket(days: nat): (a: Age)
    ensures a == Today <==> days == 0
    ensures a == Yesterday <==> days == 1
    ensures a.Days? <==> 2 <= days < 7
    ensures a.Weeks? <==> 7 <= days < 30
    ensures a.Months? <==> 30 <= days < 365
    ensures a.Years? <==> 365 <= days
    ensures a.Days? ==> a.n == days
    ensures a.Weeks? ==> 1 <= a.n <= 4
    ensures a.Months? ==> 1 <= a.n <= 12
    ensures a.Years? ==> 1 <= a.n
  {
    if days < 1 then Today
    else if days == 1 then Yesterday
    else if days < 7 then Days(days)
    else if days < 30 then Weeks(days / 7)
    else if days < 365 then Months(days / 30)
    else Years(days / 365)
  }

  /** The shortest age, in days, that the bucket covers. */
  function Since(a: Age): nat
  {
    match a
    case Today => 0
    case Yesterday => 1
    case Days(n) => n
    case Weeks(n) => 7 * n
    case Months(n) => 30 * n
    case Years(n) => 365 * n
  }

  /** How many days the bucket spans from `Since`. */
  function Span(a: Age): nat
  {
    match a
    case Today => 1
    case Yesterday => 1
    case Days(_) => 1
    case Weeks(_) => 7
    case Months(_) => 30
    case Years(_) => 365
  }

  /** The count shown is rounded down: the age lies within the span the words name, never before it. */
  lemma BucketRoundsDown(days: nat)
    ensures Since(Bucket(days)) <= days < Since(Bucket(days)) + Span(Bucket(days))
  {
    var a := Bucket(days);
    if a.Weeks? {
      assert days == 7 * (days / 7) + days % 7;
    } else if a.Months? {
      assert days == 30 * (days / 30) + days % 30;
    } else if a.Years? {
      assert days == 365 * (days / 365) + days % 365;
    }
  }

  function Plural(n: nat): string
  {
    if n > 1 then "s" else ""
  }

  /** The words for a bucket. */
  function Phrase(a: Age): string
  {
    match a
    case Today => "Today"
    case Yesterday => "Yesterday"
    case _ => Decimal(a.n) + Unit(a)
  }

  /** The unit after the count, singular for a count of one. */
  function Unit(a: Age): (u: string)
    requires !a.Today? && !a.Yesterday?
    ensures u != [] && u[0] == ' '
  {
    match a
    case Days(_) => " days ago"
    case Weeks(n) => " week" + Plural(n) + " ago"
    case Months(n) => " month" + Plural(n) + " ago"
    case Years(n) => " year" + Plural(n) + " ago"
  }

  /**
   * `formatRelativeDate(date)` when the publication date lies `elapsedMs`
   * milliseconds before now: empty for a missing date or a missing part,
   * and for a date after now; otherwise the words for the whole days elapsed.
   */
  function FormatRelativeDate(date: Option<PublishedDate>, elapsedMs: int): (r: string)
    ensures r == "" <==> !Complete(date) || elapsedMs < 0
    ensures Complete(date) && elapsedMs >= 0 ==> r == Phrase(Bucket(elapsedMs / MsPerDay))
  {
    if !Complete(date) then ""
    else if elapsedMs < 0 then ""
    else
      var a := Bucket(elapsedMs / MsPerDay);
      PhraseNotEmpty(a);
      Phrase(a)
  }

  /** The date is there, with a year, a month and a day. */
  predicate Complete(date: Option<PublishedDate>)
  {
    date.Some? && date.value.year.Some? && date.value.month.Some? && date.value.day.Some?
  }

  lemma PhraseNotEmpty(a: Age)
    ensures Phrase(a) != ""
  {
  }

  /** Reads the words back: the count, then the unit. */
  function ParsePhrase(s: string): Option<Age>
  {
    var ds := DigitPrefix(s);
    if ds == [] then
      if s == "Today" then Some(Today) else if s == "Yesterday" then Some(Yesterday) else None
    else
      ParseUnit(s[|ds|..], DigitsValue(ds))
  }

  /** The unit after a count of `n`, singular or plural. */
  function ParseUnit(rest: string, n: nat): Option<Age>
  {
    if rest == " days ago" then Some(Days(n))
    else if rest == " week ago" || rest == " weeks ago" then Some(Weeks(n))
    else if rest == " month ago" || rest == " months ago" then Some(Months(n))
    else if rest == " year ago" || rest == " years ago" then Some(Years(n))
    else None
  }

  /** The words name their bucket and count unambiguously: reading them back gives the bucket. */
  lemma ParsePhraseRoundTrip(a: Age)
    ensures ParsePhrase(Phrase(a)) == Some(a)
  {
    if a.Today? || a.Yesterday? {
      WordsRoundTrip();
    } else {
      UnitRoundTrip(a);
      CountedRoundTrip(a.n, Unit(a));
    }
  }

  /** The two buckets without a count. */
  lemma WordsRoundTrip()
    ensures ParsePhrase("Today") == Some(Today)
    ensures ParsePhrase("Yesterday") == Some(Yesterday)
  {
    assert DigitPrefix("Today") == [];
    assert DigitPrefix("Yesterday") == [];
  }

  /** Each unit, singular or plural, is read back as its own bucket. */
  lemma UnitRoundTrip(a: Age)
    requires !a.Today? && !a.Yesterday?
    ensures ParseUnit(Unit(a), a.n) == Some(a)
  {
    var plural := a.n > 1;
    match a
    case Days(_) =>
    case Weeks(n) =>
      assert Unit(a) == if plural then " weeks ago" else " week ago";
    case Months(n) =>
      assert Unit(a) == if plural then " months ago" else " month ago";
    case Years(n) =>
      assert Unit(a) == if plural then " years ago" else " year ago";
  }

  lemma CountedRoundTrip(n: nat, unit: string)
    requires unit != [] && unit[0] == ' '
    ensures var s := Decimal(n) + unit;
      DigitPrefix(s) == Decimal(n) && s[|Decimal(n)|..] == unit && DigitsValue(DigitPrefix(s)) == n
  {
    DigitPrefixOfDecimal(n, unit);
    DecimalValue(n);
    assert (Decimal(n) + unit)[|Decimal(n)|..] == unit;
  }

  /** Every published date in the past gets words; together the buckets cover every age. */
  lemma PastDateHasWords(date: Option<PublishedDate>, elapsedMs: nat)
    requires Complete(date)
    ensures FormatRelativeDate(date, elapsedMs) == Phrase(Bucket(elapsedMs / MsPerDay)) != ""
  {
    PhraseNotEmpty(Bucket(elapsedMs / MsPerDay));
  }
}
