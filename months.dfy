/** Month navigation. prevYM and nextYM read a "YYYY-MM" string, build
    `new Date(y, m - 2, 1)` or `new Date(y, m, 1)`, and print the date's year and its
    1-based month padded to two digits. The Date constructor normalises any month index
    into the year, and reads a year from 0 to 99 as 1900 plus that year. */
module Months {
  import opened Wrappers
  import Text

  datatype YearMonth = YearMonth(year: int, month: int) {
    predicate Valid() {
      1 <= month <= 12
    }

    /** Months counted from January of year 0: consecutive months differ by one. */
    function Index(): int {
      year * 12 + month - 1
    }
  }

  /** The Date constructor's reading of its year argument. */
  function FullYear(y: int): int {
    if 0 <= y <= 99 then 1900 + y else y
  }

  /** getFullYear() and getMonth() + 1 of `new Date(y, monthIndex, 1)`: the month that is
      `monthIndex` months after January of FullYear(y). */
  function FirstOfMonth(y: int, monthIndex: int): (r: YearMonth)
    ensures r.Valid()
    ensures r.Index() == FullYear(y) * 12 + monthIndex
  {
    YearMonth(FullYear(y) + monthIndex / 12, monthIndex % 12 + 1)
  }

  /** The month before `ym`, as prevYM computes it. */
  function Prev(ym: YearMonth): (r: YearMonth)
    ensures r.Valid()
    ensures r.Index() == YearMonth(FullYear(ym.year), ym.month).Index() - 1
    ensures ym.Valid() && ym.year >= 0 ==> r.year >= 0
  {
    FirstOfMonth(ym.year, ym.month - 2)
  }

  /** The month after `ym`, as nextYM computes it. */
  function Next(ym: YearMonth): (r: YearMonth)
    ensures r.Valid()
    ensures r.Index() == YearMonth(FullYear(ym.year), ym.month).Index() + 1
    ensures ym.Valid() && ym.year >= 0 ==> r.year >= 0
  {
    FirstOfMonth(ym.year, ym.month)
  }

  /** Two valid months with the same index are the same month. */
  lemma IndexInjective(a: YearMonth, b: YearMonth)
    requires a.Valid() && b.Valid() && a.Index() == b.Index()
    ensures a == b
  {
  }

  /** Outside the two-digit window, stepping back goes to the previous month of the same
      year, and January goes to December of the previous year. */
  lemma PrevStep(ym: YearMonth)
    requires ym.Valid() && !(0 <= ym.year <= 99)
    ensures ym.month == 1 ==> Prev(ym) == YearMonth(ym.year - 1, 12)
    ensures ym.month > 1 ==> Prev(ym) == YearMonth(ym.year, ym.month - 1)
  {
    var expected := if ym.month == 1 then YearMonth(ym.year - 1, 12) else YearMonth(ym.year, ym.month - 1);
    IndexInjective(Prev(ym), expected);
  }

  /** Outside the two-digit window, stepping forward goes to the next month of the same
      year, and December goes to January of the next year. */
  lemma NextStep(ym: YearMonth)
    requires ym.Valid() && !(0 <= ym.year <= 99)
    ensures ym.month == 12 ==> Next(ym) == YearMonth(ym.year + 1, 1)
    ensures ym.month < 12 ==> Next(ym) == YearMonth(ym.year, ym.month + 1)
  {
    var expected := if ym.month == 12 then YearMonth(ym.year + 1, 1) else YearMonth(ym.year, ym.month + 1);
    IndexInjective(Next(ym), expected);
  }

  /** Forward after back returns to the start, for every year whose step back stays
      outside the two-digit window. */
  lemma NextOfPrev(ym: YearMonth)
    requires ym.Valid() && (ym.year >= 101 || ym.year < 0)
    ensures Next(Prev(ym)) == ym
  {
    PrevStep(ym);
    NextStep(Prev(ym));
  }

  /** Back after forward returns to the start, for every year whose step forward stays
      outside the two-digit window. */
  lemma PrevOfNext(ym: YearMonth)
    requires ym.Valid() && (ym.year >= 100 || ym.year < -1)
    ensures Prev(Next(ym)) == ym
  {
    NextStep(ym);
    PrevStep(Next(ym));
  }

  /** Inside the two-digit window the year jumps: the month before March of year 50 is
      February 1950, and stepping back from January of year 100 and forward again lands
      in January 2000. */
  lemma TwoDigitYears()
    ensures Prev(YearMonth(50, 3)) == YearMonth(1950, 2)
    ensures Next(Prev(YearMonth(100, 1))) == YearMonth(2000, 1)
  {
  }

  /** A step never stays on the same month, so the month-loading effect always runs. */
  lemma StepsMove(ym: YearMonth)
    requires ym.Valid()
    ensures Prev(ym) != ym && Next(ym) != ym
  {
    if !(0 <= ym.year <= 99) {
      PrevStep(ym);
      NextStep(ym);
    }
  }

  /** The month's text: the year as String() prints it, a dash, the month padded to two
      digits with padStart(2, "0"). */
  function Format(ym: YearMonth): (s: string)
    requires ym.Valid()
    ensures |s| >= 4 && s[|s| - 3] == '-' && s[|s| - 2..] == TwoDigits(ym.month)
    ensures (s[0] == '-') <==> ym.year < 0
  {
    Text.IntToDecimal(ym.year) + "-" + TwoDigits(ym.month)
  }

  function TwoDigits(m: int): (s: string)
    requires 1 <= m <= 12
    ensures |s| == 2 && Text.AllDigits(s) && Text.DecimalValue(s) == m
  {
    var d := Text.NatToDecimal(m);
    Text.DecimalRoundTrip(m);
    if |d| >= 2 then d
    else
      assert d == [Text.DigitChar(m)];
      "0" + d
  }

  /** `ym.split("-").map(Number)` and the destructuring `[y, m]`: None stands for a NaN
      in either place, which is also what a missing second part gives. */
  function Parse(s: string): (r: Option<(int, int)>)
    ensures '-' !in s ==> r.None?
    ensures r.Some? ==> r.value.0 >= 0 && r.value.1 >= 0
  {
    if '-' !in s then Text.SplitWithoutSeparator(s, '-'); None else
    var parts := Text.Split(s, '-');
    if |parts| < 2 then None
    else
      match (Text.NumberOf(parts[0]), Text.NumberOf(parts[1]))
      case (Some(y), Some(m)) => Some((y, m))
      case _ => None
  }

  /** The text an invalid date prints: getFullYear() and getMonth() are NaN. */
  const InvalidMonthText: string := "NaN-NaN"

  /** prevYM on text: text that does not read as a year and a month gives "NaN-NaN";
      otherwise the result is well-formed and reads back as the month before. */
  function PrevText(s: string): (r: string)
    ensures Parse(s).None? ==> r == InvalidMonthText
    ensures Parse(s).Some? ==>
      var d := FirstOfMonth(Parse(s).value.0, Parse(s).value.1 - 2);
      Parse(r) == Some((d.year, d.month))
  {
    match Parse(s)
    case Some((y, m)) =>
      ParseFormat(FirstOfMonth(y, m - 2));
      Format(FirstOfMonth(y, m - 2))
    case None => InvalidMonthText
  }

  /** nextYM on text: text that does not read as a year and a month gives "NaN-NaN";
      otherwise the result is well-formed and reads back as the month after. */
  function NextText(s: string): (r: string)
    ensures Parse(s).None? ==> r == InvalidMonthText
    ensures Parse(s).Some? ==>
      var d := FirstOfMonth(Parse(s).value.0, Parse(s).value.1);
      Parse(r) == Some((d.year, d.month))
  {
    match Parse(s)
    case Some((y, m)) =>
      ParseFormat(FirstOfMonth(y, m));
      Format(FirstOfMonth(y, m))
    case None => InvalidMonthText
  }

  /** Reading back the text of a month of a non-negative year gives the month. */
  lemma ParseFormat(ym: YearMonth)
    requires ym.Valid() && ym.year >= 0
    ensures Parse(Format(ym)) == Some((ym.year, ym.month))
  {
    var y := Text.NatToDecimal(ym.year);
    var m := TwoDigits(ym.month);
    assert '-' !in y && '-' !in m by {
      assert forall i :: 0 <= i < |y| ==> Text.IsDigit(y[i]);
      assert forall i :: 0 <= i < |m| ==> Text.IsDigit(m[i]);
    }
    assert Text.Join([y, m], '-') == Format(ym);
    Text.SplitJoin([y, m], '-');
    Text.DecimalRoundTrip(ym.year);
  }

  /** On well-formed text prevYM is Prev and nextYM is Next. */
  lemma TextSteps(ym: YearMonth)
    requires ym.Valid() && ym.year >= 0
    ensures PrevText(Format(ym)) == Format(Prev(ym))
    ensures NextText(Format(ym)) == Format(Next(ym))
  {
    PrevTextStep(ym);
    NextTextStep(ym);
  }

  lemma PrevTextStep(ym: YearMonth)
    requires ym.Valid() && ym.year >= 0
    ensures PrevText(Format(ym)) == Format(Prev(ym))
  {
    ParseFormat(ym);
    var p := FirstOfMonth(ym.year, ym.month - 2);
    assert p == Prev(ym);
  }

  lemma NextTextStep(ym: YearMonth)
    requires ym.Valid() && ym.year >= 0
    ensures NextText(Format(ym)) == Format(Next(ym))
  {
    ParseFormat(ym);
  }

  /** The round trips hold on the text the page shows. */
  lemma TextRoundTrips(ym: YearMonth)
    requires ym.Valid() && ym.year >= 101
    ensures NextText(PrevText(Format(ym))) == Format(ym)
    ensures PrevText(NextText(Format(ym))) == Format(ym)
  {
    TextSteps(ym);
    TextSteps(Prev(ym));
    TextSteps(Next(ym));
    PrevStep(ym);
    NextOfPrev(ym);
    PrevOfNext(ym);
  }
}
