/**
 * The trading-day matcher of the earnings-announcement preparation
 * (match_earnings_to_market_dates): a per-firm lookup of (market date,
 * return) observations built from the table itself, and for every row and
 * quarter the earliest trading date on or after the announcement date, with
 * the return on that date and the deviation in days, written into the row.
 */
module MarketMatch {
  import opened Records
  import opened Sequences

  /** One entry of a firm's market series: a market date (None is NaT) and
      the return recorded on it. */
  datatype Obs = Obs(date: Option<Day>, ret: Option<int>)

  function ObsOf(r: Row): Obs
  {
    Obs(r.marketdate, r.ret)
  }

  /** The series has an entry dated t. */
  ghost predicate TradedOn(obs: seq<Obs>, t: Day)
  {
    exists r :: Obs(Some(t), r) in obs
  }

  /** Every (firm, market date) of the table carries a single return, as
      the de-duplicated market data must for `.loc[date]` to be one value. */
  ghost predicate UniqueReturns(rows: seq<Row>)
  {
    forall j, k :: 0 <= j < |rows| && 0 <= k < |rows| &&
      rows[j].infocode == rows[k].infocode &&
      rows[j].marketdate.Some? && rows[j].marketdate == rows[k].marketdate
      ==> rows[j].ret == rows[k].ret
  }

  /** The (market date, return) observations of one firm, one per row, in
      table order. */
  function FirmObservations(rows: seq<Row>, firm: int): (s: seq<Obs>)
    ensures forall o :: o in s ==> exists k :: 0 <= k < |rows| && rows[k].infocode == firm && ObsOf(rows[k]) == o
    ensures forall k :: 0 <= k < |rows| && rows[k].infocode == firm ==> ObsOf(rows[k]) in s
  {
    if |rows| == 0 then []
    else
      var prefix := FirmObservations(rows[..|rows| - 1], firm);
      var last := rows[|rows| - 1];
      assert forall k :: 0 <= k < |rows| - 1 ==> rows[..|rows| - 1][k] == rows[k];
      prefix + (if last.infocode == firm then [ObsOf(last)] else [])
  }

  function Firms(rows: seq<Row>): set<int>
  {
    set k | 0 <= k < |rows| :: rows[k].infocode
  }

  /**
   * The per-firm market lookup: every firm of the table, and only those, to
   * its distinct (market date, return) pairs, which are exactly the pairs of
   * that firm's rows.
   */
  function MarketLookup(rows: seq<Row>): (lookup: map<int, seq<Obs>>)
    ensures forall k :: 0 <= k < |rows| ==> rows[k].infocode in lookup
    ensures forall f :: f in lookup ==> exists k :: 0 <= k < |rows| && rows[k].infocode == f
    ensures forall k :: 0 <= k < |rows| ==> ObsOf(rows[k]) in lookup[rows[k].infocode]
    ensures forall f, o :: f in lookup && o in lookup[f] ==>
              exists k :: 0 <= k < |rows| && rows[k].infocode == f && ObsOf(rows[k]) == o
    ensures forall f :: f in lookup ==> NoDuplicates(lookup[f])
  {
    map f | f in Firms(rows) :: Dedup(FirmObservations(rows, f))
  }

  /**
   * The earliest market date on or after d in a firm's series, or None when
   * there is none. A NaT date compares false with d and so never qualifies.
   */
  function Earliest(obs: seq<Obs>, d: Day): (e: Option<Day>)
    ensures e.Some? ==> e.value >= d && TradedOn(obs, e.value)
    ensures forall o :: o in obs && o.date.Some? && o.date.value >= d ==> e.Some? && e.value <= o.date.value
  {
    if |obs| == 0 then None
    else
      var prefix := obs[..|obs| - 1];
      var e := Earliest(prefix, d);
      var last := obs[|obs| - 1];
      assert obs == prefix + [last];
      if last.date.Some? && last.date.value >= d && (e.None? || last.date.value < e.value) then last.date else e
  }

  /** The series lookup `.loc[t]`: the return recorded on date t. */
  function ReturnOn(obs: seq<Obs>, t: Day): (r: Option<int>)
    requires TradedOn(obs, t)
    ensures Obs(Some(t), r) in obs
  {
    var prefix := obs[..|obs| - 1];
    var last := obs[|obs| - 1];
    assert obs == prefix + [last];
    if last.date == Some(t) then last.ret else ReturnOn(prefix, t)
  }

  /**
   * The minimum of the series' dates that are on or after d: when one is
   * found it is a date of the series, it is not before d and no qualifying
   * date precedes it; None means no date of the series is on or after d.
   */
  method EarliestOnOrAfter(obs: seq<Obs>, d: Day) returns (m: Option<Day>)
    ensures m == Earliest(obs, d)
    ensures m.Some? ==> m.value >= d && TradedOn(obs, m.value)
    ensures forall o :: o in obs && o.date.Some? && o.date.value >= d ==> m.Some? && m.value <= o.date.value
  {
    m := None;
    for i := 0 to |obs|
      invariant m == Earliest(obs[..i], d)
    {
      assert obs[..i + 1][..i] == obs[..i];
      var t := obs[i].date;
      if t.Some? && t.value >= d && (m.None? || t.value < m.value) {
        m := t;
      }
    }
    assert obs[..|obs|] == obs;
  }

  /**
   * What the matcher records for quarter q of a row, or None when the
   * quarter stays unset. A match is an entry of the firm's series dated on
   * or after the announcement, with no qualifying entry dated earlier, the
   * return recorded on that date and the distance in days; the quarter stays
   * unset exactly when the firm has no series, the date is missing or
   * unparsed, or no entry is dated on or after it.
   */
  function MatchQuarter(row: Row, lookup: map<int, seq<Obs>>, q: Quarter): (m: Option<Match>)
    ensures m.Some? ==> row.infocode in lookup && Announcement(row, q).Parsed?
    ensures m.Some? ==>
              var d, obs := Announcement(row, q).day, lookup[row.infocode];
              && m.value.day >= d
              && m.value.deviation == m.value.day - d
              && Obs(Some(m.value.day), m.value.ret) in obs
              && forall o :: o in obs && o.date.Some? && o.date.value >= d ==> m.value.day <= o.date.value
    ensures m.None? <==>
              || row.infocode !in lookup
              || !Announcement(row, q).Parsed?
              || forall o :: o in lookup[row.infocode] ==> !(o.date.Some? && o.date.value >= Announcement(row, q).day)
  {
    if row.infocode !in lookup then None
    else
      match Announcement(row, q)
      case Parsed(d) =>
        var obs := lookup[row.infocode];
        var e := Earliest(obs, d);
        if e.None? then None else Some(Match(e.value, ReturnOn(obs, e.value), e.value - d))
      case _ => None
  }

  /** The matches of the quarters before n. */
  function MatchedBefore(row: Row, lookup: map<int, seq<Obs>>, n: int): map<Quarter, Match>
  {
    map q: Quarter | 1 <= q <= 4 && q < n && MatchQuarter(row, lookup, q).Some? :: MatchQuarter(row, lookup, q).value
  }

  /** The matches of all four quarters of a row. */
  function MatchRow(row: Row, lookup: map<int, seq<Obs>>): map<Quarter, Match>
  {
    MatchedBefore(row, lookup, 5)
  }

  /** The table after matching: every row with its four quarters matched
      against the lookup built from the table. */
  function MatchAll(rows: seq<Row>): (r: seq<Row>)
    ensures |r| == |rows|
    ensures forall i :: 0 <= i < |r| ==> r[i].(matches := rows[i].matches) == rows[i]
  {
    var lookup := MarketLookup(rows);
    seq(|rows|, i requires 0 <= i < |rows| => rows[i].(matches := MatchRow(rows[i], lookup)))
  }

  lemma MatchedBeforeStep(row: Row, lookup: map<int, seq<Obs>>, q: Quarter)
    ensures MatchQuarter(row, lookup, q).None? ==> MatchedBefore(row, lookup, q + 1) == MatchedBefore(row, lookup, q)
    ensures MatchQuarter(row, lookup, q).Some? ==>
              MatchedBefore(row, lookup, q + 1) == MatchedBefore(row, lookup, q)[q := MatchQuarter(row, lookup, q).value]
  {
  }

  /** Initialise the matched columns (lines 176-179): every quarter unset. */
  method ResetMatches(df: array<Row>)
    modifies df
    ensures forall k :: 0 <= k < df.Length ==> df[k] == old(df[k]).(matches := map[])
  {
    for i := 0 to df.Length
      invariant forall k :: 0 <= k < i ==> df[k] == old(df[k]).(matches := map[])
      invariant forall k :: i <= k < df.Length ==> df[k] == old(df[k])
    {
      df[i] := df[i].(matches := map[]);
    }
  }

  /** Match the four quarters of row i in place, quarter by quarter; `src`
      is the row as it was before its matched columns were reset. */
  method MatchRowInPlace(df: array<Row>, i: int, lookup: map<int, seq<Obs>>, ghost src: Row)
    requires 0 <= i < df.Length && df[i] == src.(matches := map[])
    modifies df
    ensures df[i] == src.(matches := MatchRow(src, lookup))
    ensures forall k :: 0 <= k < df.Length && k != i ==> df[k] == old(df[k])
  {
    var row := df[i];
    if row.infocode !in lookup {
      assert MatchRow(src, lookup) == map[];
      return;
    }
    var series := lookup[row.infocode];
    assert MatchedBefore(src, lookup, 1) == map[];
    for q := 1 to 5
      invariant df[i] == src.(matches := MatchedBefore(src, lookup, q))
      invariant forall k :: 0 <= k < df.Length && k != i ==> df[k] == old(df[k])
    {
      MatchedBeforeStep(src, lookup, q);
      ghost var before := MatchedBefore(src, lookup, q);
      var announced := Announcement(row, q);
      assert announced == Announcement(src, q);
      if announced.Parsed? {
        var matched := EarliestOnOrAfter(series, announced.day);
        if matched.Some? {
          var ret := ReturnOn(series, matched.value);
          var m := Match(matched.value, ret, matched.value - announced.day);
          assert MatchQuarter(src, lookup, q) == Some(m);
          df[i] := df[i].(matches := df[i].matches[q := m]);
          assert df[i].matches == before[q := m];
        } else {
          assert MatchQuarter(src, lookup, q).None?;
        }
      } else {
        assert MatchQuarter(src, lookup, q).None?;
      }
    }
  }

  /** Reset the matched columns, then match every row against the lookup
      (the loop over the table's rows). */
  method MatchRowsInPlace(df: array<Row>, lookup: map<int, seq<Obs>>, ghost target: seq<Row>)
    requires |target| == df.Length
    requires forall k :: 0 <= k < df.Length ==> target[k] == df[k].(matches := MatchRow(df[k], lookup))
    modifies df
    ensures df[..] == target
  {
    ghost var orig := df[..];
    ResetMatches(df);
    for i := 0 to df.Length
      invariant forall k :: 0 <= k < i ==> df[k] == target[k]
      invariant forall k :: i <= k < df.Length ==> df[k] == orig[k].(matches := map[])
    {
      MatchRowInPlace(df, i, lookup, orig[i]);
    }
    assert df[..] == target;
  }

  /**
   * The matcher in place: build the per-firm lookup from the table, reset
   * the matched columns of every row, then for each row whose firm has
   * market data and each quarter whose announcement date is present, record
   * the earliest trading date on or after it, the return on that date and
   * the deviation in days.
   */
  method MatchEarningsToMarketDates(df: array<Row>)
    requires UniqueReturns(df[..])
    modifies df
    ensures df[..] == MatchAll(old(df[..]))
  {
    var lookup := MarketLookup(df[..]);
    MatchRowsInPlace(df, lookup, MatchAll(df[..]));
  }

  /** What the matcher relies on about the lookup built from a table:
      every row's firm is a key, and a firm's series holds exactly the
      (market date, return) pairs of that firm's rows. */
  ghost predicate IsLookupOf(lookup: map<int, seq<Obs>>, rows: seq<Row>)
  {
    && (forall k :: 0 <= k < |rows| ==> rows[k].infocode in lookup)
    && (forall k :: 0 <= k < |rows| ==> ObsOf(rows[k]) in lookup[rows[k].infocode])
    && (forall f, o :: f in lookup && o in lookup[f] ==>
          exists k :: 0 <= k < |rows| && rows[k].infocode == f && ObsOf(rows[k]) == o)
  }

  lemma LookupOfTable(rows: seq<Row>)
    ensures IsLookupOf(MarketLookup(rows), rows)
  {
  }

  lemma MatchAllAt(rows: seq<Row>, i: int)
    requires 0 <= i < |rows|
    ensures IsLookupOf(MarketLookup(rows), rows)
    ensures MatchAll(rows)[i].matches == MatchRow(rows[i], MarketLookup(rows))
  {
    LookupOfTable(rows);
    var lookup := MarketLookup(rows);
    assert MatchAll(rows)[i] == rows[i].(matches := MatchRow(rows[i], lookup));
  }

  lemma MatchRowAt(row: Row, lookup: map<int, seq<Obs>>, q: Quarter)
    ensures q in MatchRow(row, lookup) <==> MatchQuarter(row, lookup, q).Some?
    ensures q in MatchRow(row, lookup) ==> MatchRow(row, lookup)[q] == MatchQuarter(row, lookup, q).value
  {
  }

  lemma QuarterIndependent(r1: Row, r2: Row, lookup: map<int, seq<Obs>>, q: Quarter)
    requires r1.infocode == r2.infocode && Announcement(r1, q) == Announcement(r2, q)
    ensures MatchQuarter(r1, lookup, q) == MatchQuarter(r2, lookup, q)
  {
  }

  /** A firm's trading dates, seen from its lookup series. */
  lemma SeriesDates(rows: seq<Row>, lookup: map<int, seq<Obs>>, f: int, t: Day)
    requires IsLookupOf(lookup, rows) && f in lookup
    ensures TradedOn(lookup[f], t) <==>
              exists j :: 0 <= j < |rows| && rows[j].infocode == f && rows[j].marketdate == Some(t)
  {
    var obs := lookup[f];
    if TradedOn(obs, t) {
      var r :| Obs(Some(t), r) in obs;
      var j :| 0 <= j < |rows| && rows[j].infocode == f && ObsOf(rows[j]) == Obs(Some(t), r);
    }
    if exists j :: 0 <= j < |rows| && rows[j].infocode == f && rows[j].marketdate == Some(t) {
      var j :| 0 <= j < |rows| && rows[j].infocode == f && rows[j].marketdate == Some(t);
      assert ObsOf(rows[j]) in obs;
    }
  }

  lemma QuarterMatchSound(rows: seq<Row>, lookup: map<int, seq<Obs>>, i: int, q: Quarter)
    requires IsLookupOf(lookup, rows) && 0 <= i < |rows| && MatchQuarter(rows[i], lookup, q).Some?
    ensures Announcement(rows[i], q).Parsed?
    ensures var d, m := Announcement(rows[i], q).day, MatchQuarter(rows[i], lookup, q).value;
            && m.day >= d
            && m.deviation == m.day - d
            && (exists j :: 0 <= j < |rows| && rows[j].infocode == rows[i].infocode && rows[j].marketdate == Some(m.day))
            && (forall j :: (0 <= j < |rows| && rows[j].infocode == rows[i].infocode &&
                  rows[j].marketdate.Some? && rows[j].marketdate.value >= d) ==> m.day <= rows[j].marketdate.value)
            && (exists j :: 0 <= j < |rows| && rows[j].infocode == rows[i].infocode &&
                  rows[j].marketdate == Some(m.day) && rows[j].ret == m.ret)
  {
    var f := rows[i].infocode;
    var obs := lookup[f];
    var d := Announcement(rows[i], q).day;
    var e := Earliest(obs, d);
    var r := ReturnOn(obs, e.value);
    SeriesDates(rows, lookup, f, e.value);
    forall j | 0 <= j < |rows| && rows[j].infocode == f && rows[j].marketdate.Some? && rows[j].marketdate.value >= d
      ensures e.value <= rows[j].marketdate.value
    {
      assert ObsOf(rows[j]) in obs;
    }
    var k :| 0 <= k < |rows| && rows[k].infocode == f && ObsOf(rows[k]) == Obs(Some(e.value), r);
  }

  lemma QuarterUnmatched(rows: seq<Row>, lookup: map<int, seq<Obs>>, i: int, q: Quarter)
    requires IsLookupOf(lookup, rows) && 0 <= i < |rows|
    ensures MatchQuarter(rows[i], lookup, q).None? <==>
            || !Announcement(rows[i], q).Parsed?
            || forall j :: (0 <= j < |rows| && rows[j].infocode == rows[i].infocode && rows[j].marketdate.Some?)
                 ==> rows[j].marketdate.value < Announcement(rows[i], q).day
  {
    var f := rows[i].infocode;
    if Announcement(rows[i], q).Parsed? {
      var obs := lookup[f];
      var d := Announcement(rows[i], q).day;
      var e := Earliest(obs, d);
      if e.Some? {
        SeriesDates(rows, lookup, f, e.value);
      } else {
        forall j | 0 <= j < |rows| && rows[j].infocode == f && rows[j].marketdate.Some?
          ensures rows[j].marketdate.value < d
        {
          assert ObsOf(rows[j]) in obs;
        }
      }
    }
  }

  /**
   * A recorded match for quarter q: the announcement date is present, the
   * matched date is a trading date of the row's firm on or after it, no
   * trading date of the firm lies between the two, and the deviation is the
   * distance between them in days, hence never negative.
   */
  lemma MatchedQuarterIsEarliest(rows: seq<Row>, i: int, q: Quarter)
    requires 0 <= i < |rows| && q in MatchAll(rows)[i].matches
    ensures Announcement(rows[i], q).Parsed?
    ensures var d, m := Announcement(rows[i], q).day, MatchAll(rows)[i].matches[q];
            && m.day >= d
            && m.deviation == m.day - d
            && m.deviation >= 0
            && (exists j :: 0 <= j < |rows| && rows[j].infocode == rows[i].infocode && rows[j].marketdate == Some(m.day))
            && (forall j :: (0 <= j < |rows| && rows[j].infocode == rows[i].infocode &&
                  rows[j].marketdate.Some? && rows[j].marketdate.value >= d) ==> m.day <= rows[j].marketdate.value)
  {
    MatchAllAt(rows, i);
    MatchRowAt(rows[i], MarketLookup(rows), q);
    QuarterMatchSound(rows, MarketLookup(rows), i, q);
  }

  /**
   * The return recorded for a matched quarter is the return of a row of the
   * firm on the matched date; when each (firm, date) carries one return, it
   * is the return of every such row.
   */
  lemma MatchedQuarterReturn(rows: seq<Row>, i: int, q: Quarter)
    requires 0 <= i < |rows| && q in MatchAll(rows)[i].matches
    ensures var m := MatchAll(rows)[i].matches[q];
            exists j :: 0 <= j < |rows| && rows[j].infocode == rows[i].infocode &&
              rows[j].marketdate == Some(m.day) && rows[j].ret == m.ret
    ensures UniqueReturns(rows) ==>
            var m := MatchAll(rows)[i].matches[q];
            forall j :: (0 <= j < |rows| && rows[j].infocode == rows[i].infocode &&
              rows[j].marketdate == Some(m.day)) ==> rows[j].ret == m.ret
  {
    MatchAllAt(rows, i);
    MatchRowAt(rows[i], MarketLookup(rows), q);
    QuarterMatchSound(rows, MarketLookup(rows), i, q);
  }

  /**
   * Quarter q of row i stays unset exactly when its announcement date is
   * missing or unparsed, or the firm has no trading date on or after it.
   */
  lemma UnmatchedQuarter(rows: seq<Row>, i: int, q: Quarter)
    requires 0 <= i < |rows|
    ensures q !in MatchAll(rows)[i].matches <==>
            || !Announcement(rows[i], q).Parsed?
            || forall j :: (0 <= j < |rows| && rows[j].infocode == rows[i].infocode && rows[j].marketdate.Some?)
                 ==> rows[j].marketdate.value < Announcement(rows[i], q).day
  {
    MatchAllAt(rows, i);
    MatchRowAt(rows[i], MarketLookup(rows), q);
    QuarterUnmatched(rows, MarketLookup(rows), i, q);
  }

  /** Each quarter's slot depends only on the firm and that quarter's own
      announcement date, never on the other quarters. */
  lemma QuarterSlotsIndependent(rows: seq<Row>, i: int, j: int, q: Quarter)
    requires 0 <= i < |rows| && 0 <= j < |rows|
    requires rows[i].infocode == rows[j].infocode && Announcement(rows[i], q) == Announcement(rows[j], q)
    ensures q in MatchAll(rows)[i].matches <==> q in MatchAll(rows)[j].matches
    ensures q in MatchAll(rows)[i].matches ==> MatchAll(rows)[i].matches[q] == MatchAll(rows)[j].matches[q]
  {
    MatchAllAt(rows, i);
    MatchAllAt(rows, j);
    MatchRowAt(rows[i], MarketLookup(rows), q);
    MatchRowAt(rows[j], MarketLookup(rows), q);
    QuarterIndependent(rows[i], rows[j], MarketLookup(rows), q);
  }
}
