/** Temporal completion of the sample table: the filter that keeps only
    samples dated to the day, the continuous week index that runs across
    years, and the state token taken from the location path. Parsing the
    date text and computing its ISO calendar triple are library work; the
    triple is an input here. */
module Completion {
  import opened Py
  import opened PyStr

  /** One raw case record of the sample table. */
  datatype Sample = Sample(
    collectionDate: string,
    location: string,
    lineage: string,
    patientAge: string,
    gender: string,
    patientStatus: string,
    aaSubstitutions: string)

  // ---------------------------------------------------------------------
  // The date filter
  // ---------------------------------------------------------------------

  /** A collection date longer than seven characters: more than "YYYY-MM". */
  predicate HasDay(s: Sample)
  {
    |s.collectionDate| > 7
  }

  /** `df[df['Collection date'].str.len() > 7]`. */
  function KeepDated(rows: seq<Sample>): (kept: seq<Sample>)
    ensures |kept| <= |rows|
    ensures forall s :: s in kept <==> s in rows && HasDay(s)
  {
    if |rows| == 0 then []
    else
      var last := rows[|rows| - 1];
      KeepDated(rows[..|rows| - 1]) + (if HasDay(last) then [last] else [])
  }

  /** The filter works row by row: it keeps the relative order of rows. */
  lemma {:induction false} KeepDatedAppend(a: seq<Sample>, b: seq<Sample>)
    ensures KeepDated(a + b) == KeepDated(a) + KeepDated(b)
    decreases |b|
  {
    if |b| > 0 {
      var ab := a + b;
      assert ab[..|ab| - 1] == a + b[..|b| - 1];
      KeepDatedAppend(a, b[..|b| - 1]);
    } else {
      assert a + b == a;
    }
  }

  /** The filter drops a row exactly when its date is too short: it keeps
      everything when every date has a day, and its count is the number of
      rows that do. */
  lemma {:induction false} KeepDatedCount(rows: seq<Sample>)
    ensures |KeepDated(rows)| == |rows| <==> forall i :: 0 <= i < |rows| ==> HasDay(rows[i])
    ensures (forall i :: 0 <= i < |rows| ==> HasDay(rows[i])) ==> KeepDated(rows) == rows
    decreases |rows|
  {
    if |rows| > 0 {
      var init := rows[..|rows| - 1];
      KeepDatedCount(init);
      assert rows == init + [rows[|rows| - 1]];
      if |KeepDated(rows)| == |rows| {
        assert HasDay(rows[|rows| - 1]);
        assert |KeepDated(init)| == |init|;
        forall i | 0 <= i < |rows| ensures HasDay(rows[i]) {
          if i < |init| { assert rows[i] == init[i]; }
        }
      }
      if forall i :: 0 <= i < |rows| ==> HasDay(rows[i]) {
        assert forall i :: 0 <= i < |init| ==> HasDay(init[i]) by {
          forall i | 0 <= i < |init| ensures HasDay(init[i]) { assert init[i] == rows[i]; }
        }
      }
    }
  }

  // ---------------------------------------------------------------------
  // The continuous week
  // ---------------------------------------------------------------------

  /** `date.isocalendar()`: ISO year, ISO week and ISO weekday. */
  datatype IsoDate = IsoDate(isoYear: int, isoWeek: int, isoWeekday: int)

  /** The per-year week offset table of `__week_cont__`. */
  const WeekDelay: map<int, int> := map[2020 := 0, 2021 := 53, 2022 := 106]

  /** `date[1] + delay[date[0]]`: the ISO week shifted by its ISO year's offset. */
  function ContinuousWeek(d: IsoDate): (r: Result<int>)
    ensures r.Ok? <==> 2020 <= d.isoYear <= 2022
    ensures r.Err? ==> r.error == KeyError
  {
    if d.isoYear in WeekDelay then Ok(d.isoWeek + WeekDelay[d.isoYear]) else Err(KeyError)
  }

  /** Week 1 of 2020 is 1, and every later year in the table starts 53 weeks on. */
  lemma ContinuousWeekValue(d: IsoDate)
    requires 2020 <= d.isoYear <= 2022
    ensures ContinuousWeek(d) == Ok(d.isoWeek + 53 * (d.isoYear - 2020))
  {
  }

  /** For weeks 1 to 53 the index is strictly increasing in (ISO year, ISO week). */
  lemma ContinuousWeekIncreasing(d1: IsoDate, d2: IsoDate)
    requires 2020 <= d1.isoYear <= 2022 && 2020 <= d2.isoYear <= 2022
    requires 1 <= d1.isoWeek <= 53 && 1 <= d2.isoWeek <= 53
    requires d1.isoYear < d2.isoYear || (d1.isoYear == d2.isoYear && d1.isoWeek < d2.isoWeek)
    ensures ContinuousWeek(d1).value < ContinuousWeek(d2).value
  {
    ContinuousWeekValue(d1);
    ContinuousWeekValue(d2);
  }

  /** The ISO year and week a continuous week from 1 to 159 stands for. */
  function WeekOfIndex(c: int): (yw: (int, int))
    requires 1 <= c <= 159
  {
    if c <= 53 then (2020, c) else if c <= 106 then (2021, c - 53) else (2022, c - 106)
  }

  /** The continuous week loses nothing: its year and week can be read back. */
  lemma ContinuousWeekInverse(d: IsoDate)
    requires 2020 <= d.isoYear <= 2022 && 1 <= d.isoWeek <= 53
    ensures 1 <= ContinuousWeek(d).value <= 159
    ensures WeekOfIndex(ContinuousWeek(d).value) == (d.isoYear, d.isoWeek)
  {
    ContinuousWeekValue(d);
  }

  /** `__week_cont__`: one continuous week per row, in row order; the first
      row whose ISO year is not in the table raises `KeyError`. */
  function ContinuousWeeks(dates: seq<IsoDate>): (r: Result<seq<int>>)
    ensures r.Ok? <==> forall i :: 0 <= i < |dates| ==> 2020 <= dates[i].isoYear <= 2022
    ensures r.Ok? ==> |r.value| == |dates|
    ensures r.Err? ==> r.error == KeyError
  {
    MapOrRaise(dates, ContinuousWeek)
  }

  // ---------------------------------------------------------------------
  // The state token
  // ---------------------------------------------------------------------

  /** `location.split('/')[2]`: the raw third field of the path, which raises
      `IndexError` when the path has fewer than three fields. */
  function StateToken(location: string): (r: Result<string>)
    ensures r.Ok? <==> multiset(location)['/'] >= 2
    ensures r.Err? ==> r.error == IndexError
    ensures r.Ok? ==> '/' !in r.value
  {
    SplitCount(location, '/');
    var fields := Split(location, '/');
    if |fields| > 2 then Ok(fields[2]) else Err(IndexError)
  }

  /** The token is the third field exactly as written, whatever the fields
      hold apart from separators (spaces included), and whatever follows it. */
  lemma StateTokenOf(continent: string, country: string, state: string, rest: string)
    requires '/' !in continent && '/' !in country && '/' !in state
    requires rest == "" || rest[0] == '/'
    ensures StateToken(continent + "/" + country + "/" + state + rest) == Ok(state)
  {
    var loc := continent + "/" + country + "/" + state + rest;
    var tail := state + rest;
    assert loc == continent + ['/'] + (country + ['/'] + tail);
    SplitHead(continent, '/', country + ['/'] + tail);
    SplitHead(country, '/', tail);
    var more := FieldThen(state, '/', rest);
    ThirdField(loc, continent, country, state, more);
  }

  lemma ThirdField(loc: string, continent: string, country: string, state: string, more: seq<string>)
    requires Split(loc, '/') == [continent, country] + ([state] + more)
    ensures StateToken(loc) == Ok(state)
  {
    var fields := Split(loc, '/');
    assert |fields| > 2 && fields[2] == state;
  }

  /** A path written with spaces around the separators keeps them in the token. */
  lemma StateTokenUntrimmed()
    ensures StateToken("North America / Mexico / Jalisco") == Ok(" Jalisco")
  {
    var continent, country, state := "North America ", " Mexico ", " Jalisco";
    assert "North America / Mexico / Jalisco" == continent + "/" + country + "/" + state + "";
    StateTokenOf(continent, country, state, "");
  }

  /** `__state__`: one token per row, in order; the first path with fewer
      than three fields raises `IndexError`. */
  function StateTokens(locations: seq<string>): (r: Result<seq<string>>)
    ensures r.Ok? <==> forall i :: 0 <= i < |locations| ==> multiset(locations[i])['/'] >= 2
    ensures r.Ok? ==> |r.value| == |locations|
    ensures r.Err? ==> r.error == IndexError
  {
    MapOrRaise(locations, StateToken)
  }
}
