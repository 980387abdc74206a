/**
 * The firm-year filter of the earnings-announcement preparation
 * (filter_valid_earnings): an NA drop and three boolean-mask filters
 * applied in turn, each logging how many rows it dropped, followed by
 * filling a missing daily return with 0.
 */
module EarningsFilter {
  import opened Records
  import opened Sequences

  /** How many rows each stage dropped and how many returns were filled. */
  datatype FilterReport = FilterReport(
    missingDates: nat,
    multipleYears: nat,
    afterCutoff: nat,
    identicalDates: nat,
    filledReturns: nat)

  datatype Filtered = Filtered(rows: seq<Row>, report: FilterReport)

  /** The calendar year of a date cell; NaT has no year (NaN). */
  function YearOf(d: RawDate, yearOf: Day -> int): Option<int>
  {
    if d.Parsed? then Some(yearOf(d.day)) else None
  }

  /** Stage 1: no announcement-date cell is NA. */
  predicate HasAllDates(r: Row)
  {
    r.q1 != Missing && r.q2 != Missing && r.q3 != Missing && r.q4 != Missing
  }

  /** Stage 2: the first quarter's year equals each other quarter's year.
      A NaN year compares unequal to every year, itself included. */
  predicate SameYear(r: Row, yearOf: Day -> int)
  {
    var y := YearOf(r.q1, yearOf);
    y.Some? && YearOf(r.q2, yearOf) == y && YearOf(r.q3, yearOf) == y && YearOf(r.q4, yearOf) == y
  }

  /** A year that is known and no later than the cutoff (NaN <= 2023 is false). */
  predicate NotAfterCutoff(d: RawDate, yearOf: Day -> int)
  {
    var y := YearOf(d, yearOf);
    y.Some? && y.value <= CutoffYear
  }

  /** Stage 3: every quarter's year is at most the cutoff year. */
  predicate WithinCutoff(r: Row, yearOf: Day -> int)
  {
    NotAfterCutoff(r.q1, yearOf) && NotAfterCutoff(r.q2, yearOf) &&
    NotAfterCutoff(r.q3, yearOf) && NotAfterCutoff(r.q4, yearOf)
  }

  /** Date equality as the table compares dates: NaT equals nothing. */
  predicate SameDay(a: RawDate, b: RawDate)
  {
    a.Parsed? && b.Parsed? && a.day == b.day
  }

  /** Stage 4: not all four announcement dates are the same day. */
  predicate NotAllIdentical(r: Row)
  {
    !(SameDay(r.q1, r.q2) && SameDay(r.q1, r.q3) && SameDay(r.q1, r.q4))
  }

  function SameYearIn(yearOf: Day -> int): Row -> bool
  {
    r => SameYear(r, yearOf)
  }

  function WithinCutoffIn(yearOf: Day -> int): Row -> bool
  {
    r => WithinCutoff(r, yearOf)
  }

  /**
   * A valid firm-year, stated directly: four parsed announcement dates, all
   * in one calendar year, that year no later than the cutoff, and not all
   * four on the same day.
   */
  predicate ValidFirmYear(r: Row, yearOf: Day -> int)
  {
    && r.q1.Parsed? && r.q2.Parsed? && r.q3.Parsed? && r.q4.Parsed?
    && yearOf(r.q2.day) == yearOf(r.q1.day)
    && yearOf(r.q3.day) == yearOf(r.q1.day)
    && yearOf(r.q4.day) == yearOf(r.q1.day)
    && yearOf(r.q1.day) <= CutoffYear
    && !(r.q1.day == r.q2.day && r.q1.day == r.q3.day && r.q1.day == r.q4.day)
  }

  function ValidIn(yearOf: Day -> int): Row -> bool
  {
    r => ValidFirmYear(r, yearOf)
  }

  predicate MissingReturn(r: Row)
  {
    r.ret.None?
  }

  /** The row with a missing daily return replaced by 0. */
  function FillRet(r: Row): Row
  {
    if r.ret.None? then r.(ret := Some(0)) else r
  }

  /** Fill every missing return of a table with 0. */
  function FillRets(s: seq<Row>): (r: seq<Row>)
    ensures |r| == |s|
    ensures forall k :: 0 <= k < |r| ==> r[k].ret.Some?
    ensures forall k :: 0 <= k < |r| && s[k].ret.Some? ==> r[k] == s[k]
    ensures forall k :: 0 <= k < |r| && s[k].ret.None? ==> r[k] == s[k].(ret := Some(0))
  {
    seq(|s|, k requires 0 <= k < |s| => FillRet(s[k]))
  }

  /**
   * The counts the four stages log: each is the number of rows of that
   * stage's input failing its condition, and together they are the number
   * of rows the stages remove.
   */
  function DropReport(df: seq<Row>, yearOf: Day -> int): (rep: FilterReport)
    ensures rep.missingDates == Count(df, Not(HasAllDates))
    ensures rep.multipleYears == Count(Filter(df, HasAllDates), Not(SameYearIn(yearOf)))
    ensures rep.afterCutoff ==
            Count(Filter(Filter(df, HasAllDates), SameYearIn(yearOf)), Not(WithinCutoffIn(yearOf)))
    ensures rep.identicalDates ==
            Count(Filter(Filter(Filter(df, HasAllDates), SameYearIn(yearOf)), WithinCutoffIn(yearOf)), Not(NotAllIdentical))
    ensures rep.missingDates + rep.multipleYears + rep.afterCutoff + rep.identicalDates
            == |df| - |Filter(Filter(Filter(Filter(df, HasAllDates), SameYearIn(yearOf)), WithinCutoffIn(yearOf)), NotAllIdentical)|
    ensures rep.filledReturns == 0
  {
    var afterNa := Filter(df, HasAllDates);
    var afterYear := Filter(afterNa, SameYearIn(yearOf));
    var after2023 := Filter(afterYear, WithinCutoffIn(yearOf));
    var afterUnique := Filter(after2023, NotAllIdentical);
    StageCounts(df, yearOf);
    FilterReport(
      |df| - |afterNa|,
      |afterNa| - |afterYear|,
      |afterYear| - |after2023|,
      |after2023| - |afterUnique|,
      0)
  }

  /**
   * The filter: drop rows with a missing date, then rows whose dates span
   * several years, then rows with a year after the cutoff, then rows whose
   * four dates coincide; finally fill missing returns. The report holds the
   * count each stage logs and the number of returns filled.
   */
  function FilterValidEarnings(df: seq<Row>, yearOf: Day -> int): (out: Filtered)
    ensures forall k :: 0 <= k < |out.rows| ==> ValidFirmYear(out.rows[k], yearOf)
    ensures forall k :: 0 <= k < |out.rows| ==> out.rows[k].ret.Some?
    ensures |out.rows| <= |df|
    ensures out.report.missingDates == Count(df, Not(HasAllDates))
    ensures out.report.multipleYears == Count(Filter(df, HasAllDates), Not(SameYearIn(yearOf)))
    ensures out.report.afterCutoff ==
            Count(Filter(Filter(df, HasAllDates), SameYearIn(yearOf)), Not(WithinCutoffIn(yearOf)))
    ensures out.report.identicalDates ==
            Count(Filter(Filter(Filter(df, HasAllDates), SameYearIn(yearOf)), WithinCutoffIn(yearOf)), Not(NotAllIdentical))
    ensures out.report.filledReturns <= |out.rows|
    ensures out.report.filledReturns == Count(Filter(df, ValidIn(yearOf)), MissingReturn)
    ensures out.report.missingDates + out.report.multipleYears
            + out.report.afterCutoff + out.report.identicalDates == |df| - |out.rows|
  {
    var afterUnique := Filter(Filter(Filter(Filter(df, HasAllDates), SameYearIn(yearOf)), WithinCutoffIn(yearOf)), NotAllIdentical);
    var nanCount := Count(afterUnique, MissingReturn);
    var filled := FillRets(afterUnique);
    StagesAreValidFirmYear(df, yearOf);
    FilledValidRows(afterUnique, yearOf);
    Filtered(filled, DropReport(df, yearOf).(filledReturns := nanCount))
  }

  /** The four announcement cells, by quarter. */
  lemma AnnouncementCells(r: Row)
    ensures Announcement(r, 1) == r.q1 && Announcement(r, 2) == r.q2
    ensures Announcement(r, 3) == r.q3 && Announcement(r, 4) == r.q4
  {
  }

  /** The NA drop removes exactly the rows with a missing announcement cell
      in some quarter; the count it logs is the number of such rows. */
  lemma MissingDatesStage(df: seq<Row>)
    ensures |df| - |Filter(df, HasAllDates)| == Count(df, Not(HasAllDates))
    ensures forall r :: r in df ==>
              (r in Filter(df, HasAllDates) <==> forall q: Quarter :: Announcement(r, q) != Missing)
  {
    FilterCount(df, HasAllDates);
    forall r | r in df
      ensures r in Filter(df, HasAllDates) <==> forall q: Quarter :: Announcement(r, q) != Missing
    {
      AnnouncementCells(r);
    }
  }

  /** The same-year mask keeps exactly the rows whose four dates all parsed
      and fall in the first quarter's year: a row with an unparsed date has
      a NaN year and is removed. The count it logs is the number removed. */
  lemma MultipleYearsStage(s: seq<Row>, yearOf: Day -> int)
    ensures |s| - |Filter(s, SameYearIn(yearOf))| == Count(s, Not(SameYearIn(yearOf)))
    ensures forall r :: r in s ==>
              (r in Filter(s, SameYearIn(yearOf)) <==>
                 r.q1.Parsed? &&
                 forall q: Quarter :: Announcement(r, q).Parsed? && yearOf(Announcement(r, q).day) == yearOf(r.q1.day))
  {
    FilterCount(s, SameYearIn(yearOf));
    forall r | r in s
      ensures r in Filter(s, SameYearIn(yearOf)) <==>
                r.q1.Parsed? &&
                forall q: Quarter :: Announcement(r, q).Parsed? && yearOf(Announcement(r, q).day) == yearOf(r.q1.day)
    {
      SameYearByQuarter(r, yearOf);
      assert SameYearIn(yearOf)(r) == SameYear(r, yearOf);
    }
  }

  /** The cutoff mask keeps exactly the rows whose four dates all parsed
      with a year of at most 2023; the count it logs is the number removed. */
  lemma AfterCutoffStage(s: seq<Row>, yearOf: Day -> int)
    ensures |s| - |Filter(s, WithinCutoffIn(yearOf))| == Count(s, Not(WithinCutoffIn(yearOf)))
    ensures forall r :: r in s ==>
              (r in Filter(s, WithinCutoffIn(yearOf)) <==>
                 forall q: Quarter :: Announcement(r, q).Parsed? && yearOf(Announcement(r, q).day) <= CutoffYear)
  {
    FilterCount(s, WithinCutoffIn(yearOf));
    forall r | r in s
      ensures r in Filter(s, WithinCutoffIn(yearOf)) <==>
                forall q: Quarter :: Announcement(r, q).Parsed? && yearOf(Announcement(r, q).day) <= CutoffYear
    {
      WithinCutoffByQuarter(r, yearOf);
      assert WithinCutoffIn(yearOf)(r) == WithinCutoff(r, yearOf);
    }
  }

  /** The identical-dates mask removes exactly the rows whose first date
      parsed and whose four quarters all carry it; since NaT equals nothing,
      a row with an unparsed date is kept. The count it logs is the number
      removed. */
  lemma IdenticalDatesStage(s: seq<Row>)
    ensures |s| - |Filter(s, NotAllIdentical)| == Count(s, Not(NotAllIdentical))
    ensures forall r :: r in s ==>
              (r !in Filter(s, NotAllIdentical) <==> r.q1.Parsed? && forall q: Quarter :: Announcement(r, q) == r.q1)
  {
    FilterCount(s, NotAllIdentical);
    forall r | r in s
      ensures r !in Filter(s, NotAllIdentical) <==> r.q1.Parsed? && forall q: Quarter :: Announcement(r, q) == r.q1
    {
      AnnouncementCells(r);
    }
  }

  /** Each stage drops as many rows as fail its condition. */
  lemma StageCounts(df: seq<Row>, yearOf: Day -> int)
    ensures var afterNa := Filter(df, HasAllDates);
            var afterYear := Filter(afterNa, SameYearIn(yearOf));
            var after2023 := Filter(afterYear, WithinCutoffIn(yearOf));
            && |df| - |afterNa| == Count(df, Not(HasAllDates))
            && |afterNa| - |afterYear| == Count(afterNa, Not(SameYearIn(yearOf)))
            && |afterYear| - |after2023| == Count(afterYear, Not(WithinCutoffIn(yearOf)))
            && |after2023| - |Filter(after2023, NotAllIdentical)| == Count(after2023, Not(NotAllIdentical))
  {
    var afterNa := Filter(df, HasAllDates);
    var afterYear := Filter(afterNa, SameYearIn(yearOf));
    var after2023 := Filter(afterYear, WithinCutoffIn(yearOf));
    FilterCount(df, HasAllDates);
    FilterCount(afterNa, SameYearIn(yearOf));
    FilterCount(afterYear, WithinCutoffIn(yearOf));
    FilterCount(after2023, NotAllIdentical);
  }

  /** Same year, quarter by quarter. */
  lemma SameYearByQuarter(r: Row, yearOf: Day -> int)
    ensures SameYear(r, yearOf) <==>
              r.q1.Parsed? &&
              forall q: Quarter :: Announcement(r, q).Parsed? && yearOf(Announcement(r, q).day) == yearOf(r.q1.day)
  {
    AnnouncementCells(r);
  }

  /** Within the cutoff, quarter by quarter. */
  lemma WithinCutoffByQuarter(r: Row, yearOf: Day -> int)
    ensures WithinCutoff(r, yearOf) <==>
              forall q: Quarter :: Announcement(r, q).Parsed? && yearOf(Announcement(r, q).day) <= CutoffYear
  {
    AnnouncementCells(r);
  }

  /** A row passes all four stages exactly when it is a valid firm-year. */
  lemma StagePredicatesAgree(x: Row, yearOf: Day -> int)
    ensures Both(Both(Both(HasAllDates, SameYearIn(yearOf)), WithinCutoffIn(yearOf)), NotAllIdentical)(x)
            == ValidIn(yearOf)(x)
  {
    var p1, p2, p3, p4 := HasAllDates, SameYearIn(yearOf), WithinCutoffIn(yearOf), NotAllIdentical;
    assert Both(p1, p2)(x) == (p1(x) && p2(x));
    assert Both(Both(p1, p2), p3)(x) == (Both(p1, p2)(x) && p3(x));
    assert Both(Both(Both(p1, p2), p3), p4)(x) == (Both(Both(p1, p2), p3)(x) && p4(x));
    assert p2(x) == SameYear(x, yearOf);
    assert p3(x) == WithinCutoff(x, yearOf);
    assert ValidIn(yearOf)(x) == ValidFirmYear(x, yearOf);
  }

  /** Filling returns keeps the rows valid firm-years. */
  lemma FilledValidRows(s: seq<Row>, yearOf: Day -> int)
    requires forall x :: x in s ==> ValidIn(yearOf)(x)
    ensures forall k :: 0 <= k < |FillRets(s)| ==> ValidFirmYear(FillRets(s)[k], yearOf)
  {
    forall k | 0 <= k < |s|
      ensures ValidFirmYear(FillRets(s)[k], yearOf)
    {
      assert s[k] in s;
      assert ValidFirmYear(s[k], yearOf);
    }
  }

  /** The four stages together keep exactly the valid firm-years. */
  lemma StagesAreValidFirmYear(df: seq<Row>, yearOf: Day -> int)
    ensures Filter(Filter(Filter(Filter(df, HasAllDates), SameYearIn(yearOf)), WithinCutoffIn(yearOf)), NotAllIdentical)
            == Filter(df, ValidIn(yearOf))
  {
    var p1, p2, p3, p4 := HasAllDates, SameYearIn(yearOf), WithinCutoffIn(yearOf), NotAllIdentical;
    FilterTwice(df, p1, p2);
    FilterTwice(df, Both(p1, p2), p3);
    FilterTwice(df, Both(Both(p1, p2), p3), p4);
    forall x
      ensures Both(Both(Both(p1, p2), p3), p4)(x) == ValidIn(yearOf)(x)
    {
      StagePredicatesAgree(x, yearOf);
    }
    FilterSamePredicate(df, Both(Both(Both(p1, p2), p3), p4), ValidIn(yearOf));
  }

  /** The kept rows of a filter, filled, are exactly the filled rows that pass it. */
  lemma FilledSelection(df: seq<Row>, p: Row -> bool)
    ensures forall r :: r in df && p(r) ==> FillRet(r) in FillRets(Filter(df, p))
    ensures forall x :: x in FillRets(Filter(df, p)) ==> exists r :: r in df && p(r) && x == FillRet(r)
  {
    var kept := Filter(df, p);
    var out := FillRets(kept);
    forall r | r in df && p(r)
      ensures FillRet(r) in out
    {
      var k :| 0 <= k < |kept| && kept[k] == r;
      assert out[k] == FillRet(r);
    }
    forall x | x in out
      ensures exists r :: r in df && p(r) && x == FillRet(r)
    {
      var k :| 0 <= k < |out| && out[k] == x;
      assert kept[k] in kept;
      assert x == FillRet(kept[k]);
    }
  }

  /**
   * The filter only removes rows: its output is the valid firm-years of the
   * input, in their input order, with missing returns set to 0; every valid
   * input row is kept and every output row comes from a valid input row.
   */
  lemma FilterValidEarningsSelects(df: seq<Row>, yearOf: Day -> int)
    ensures var kept := Filter(df, ValidIn(yearOf));
            && IsSubsequence(kept, df)
            && FilterValidEarnings(df, yearOf).rows == FillRets(kept)
    ensures forall r :: r in df && ValidFirmYear(r, yearOf) ==> FillRet(r) in FilterValidEarnings(df, yearOf).rows
    ensures forall x :: x in FilterValidEarnings(df, yearOf).rows ==>
              exists r :: r in df && ValidFirmYear(r, yearOf) && x == FillRet(r)
  {
    StagesAreValidFirmYear(df, yearOf);
    FilterIsSubsequence(df, ValidIn(yearOf));
    FilledSelection(df, ValidIn(yearOf));
    assert forall r :: ValidIn(yearOf)(r) == ValidFirmYear(r, yearOf);
  }
}
