/** Year-over-year velocity of every sub-topic (backend/app/main.py, lines
    167-185): the trend counts of a sub-topic are added up per year (the first
    four characters of the date, kept only when they are all digits), the years
    are visited in ascending order, and each year records its count and the
    change from the year before. */
module Velocity {
  import opened Strings
  import opened Sums
  import opened Trends

  /** `str(date_str)[:4]`. */
  function Year(d: string): string
  {
    if |d| <= 4 then d else d[..4]
  }

  /** The dates that fall in year `y`. */
  function YearIs(y: string): string -> bool
  {
    d => Year(d) == y
  }

  /** The dates whose year passes `isdigit()`. */
  predicate HasDigitYear(d: string)
  {
    IsDigits(Year(d))
  }

  /** Some date of `m` falls in year `y`. */
  ghost predicate HasYear(m: map<string, nat>, y: string)
  {
    exists d :: d in m && Year(d) == y
  }

  /** The total count of the dates of `m` in year `y`. */
  ghost function YearCount(m: map<string, nat>, y: string): nat
  {
    SumValues(Restrict(m, YearIs(y)))
  }

  /** `years_counts.get(y, 0)` as the specification sees it. */
  ghost function Counted(m: map<string, nat>, y: string): nat
  {
    if IsDigits(y) then YearCount(m, y) else 0
  }

  /** `str(int(year) - 1)`. */
  function PrevYear(y: string): string
    requires IsDigits(y)
  {
    IntToString(ParseNat(y) - 1)
  }

  /** A year none of whose dates occurs counts zero. */
  lemma NoYearNoCount(m: map<string, nat>, y: string)
    requires !HasYear(m, y)
    ensures YearCount(m, y) == 0
  {
    assert Restrict(m, YearIs(y)).Keys == {};
    SumValuesEmpty(Restrict(m, YearIs(y)));
  }

  // ---------------------------------------------------------------------------
  // years_counts (lines 172-179)

  /** The years of `yc` are the digit years of the dates of `m`. */
  ghost predicate YearKeys(yc: map<string, nat>, m: map<string, nat>)
  {
    forall y :: y in yc <==> IsDigits(y) && HasYear(m, y)
  }

  /** Each year of `yc` holds the total count of its dates in `m`. */
  ghost predicate YearValues(yc: map<string, nat>, m: map<string, nat>)
  {
    forall y :: y in yc ==> yc[y] == YearCount(m, y)
  }

  /** `yc` adds up to the count of all dates of `m` with a digit year. */
  ghost predicate YearSum(yc: map<string, nat>, m: map<string, nat>)
  {
    SumValues(yc) == SumValues(Restrict(m, HasDigitYear))
  }

  /** The per-year totals of the dates of `m`. */
  ghost predicate YearTotals(yc: map<string, nat>, m: map<string, nat>)
  {
    YearKeys(yc, m) && YearValues(yc, m) && YearSum(yc, m)
  }

  /** A new date adds its year to the occurring years. */
  lemma HasYearAdd(seen: map<string, nat>, d: string, v: nat, z: string)
    ensures HasYear(seen[d := v], z) <==> HasYear(seen, z) || z == Year(d)
  {
    if HasYear(seen[d := v], z) {
      var e :| e in seen[d := v] && Year(e) == z;
      if e != d { assert e in seen; }
    }
    if HasYear(seen, z) {
      var e :| e in seen && Year(e) == z;
      assert e in seen[d := v];
    }
    if z == Year(d) { assert d in seen[d := v]; }
  }

  /** A new date adds its count to its own year only. */
  lemma YearCountAdd(seen: map<string, nat>, d: string, v: nat, z: string)
    requires d !in seen
    ensures YearCount(seen[d := v], z) == YearCount(seen, z) + (if z == Year(d) then v else 0)
  {
    RestrictAdd(seen, d, v, YearIs(z));
  }

  /** `years_counts[year] = years_counts.get(year, 0) + count` when the year is
      all digits. */
  function AddYear(yc: map<string, nat>, d: string, v: nat): map<string, nat>
  {
    var y := Year(d);
    if IsDigits(y) then yc[y := (if y in yc then yc[y] else 0) + v] else yc
  }

  lemma YearKeysStep(yc: map<string, nat>, seen: map<string, nat>, d: string, v: nat)
    requires YearKeys(yc, seen)
    ensures YearKeys(AddYear(yc, d, v), seen[d := v])
  {
    var yc' := AddYear(yc, d, v);
    forall z ensures z in yc' <==> IsDigits(z) && HasYear(seen[d := v], z) {
      HasYearAdd(seen, d, v, z);
    }
  }

  lemma YearValuesStep(yc: map<string, nat>, seen: map<string, nat>, d: string, v: nat)
    requires YearKeys(yc, seen) && YearValues(yc, seen) && d !in seen
    ensures YearValues(AddYear(yc, d, v), seen[d := v])
  {
    var y := Year(d);
    var yc' := AddYear(yc, d, v);
    if IsDigits(y) && y !in yc {
      NoYearNoCount(seen, y);
    }
    forall z | z in yc' ensures yc'[z] == YearCount(seen[d := v], z) {
      YearCountAdd(seen, d, v, z);
    }
  }

  lemma YearSumStep(yc: map<string, nat>, seen: map<string, nat>, d: string, v: nat)
    requires YearSum(yc, seen) && d !in seen
    ensures YearSum(AddYear(yc, d, v), seen[d := v])
  {
    var y := Year(d);
    RestrictAdd(seen, d, v, HasDigitYear);
    if IsDigits(y) {
      SumValuesUpdate(yc, y, (if y in yc then yc[y] else 0) + v);
    }
  }

  /** Lines 172-179: add up the counts of the dates of `m` per digit year. */
  method CountYears(m: map<string, nat>) returns (yc: map<string, nat>)
    ensures forall y :: y in yc <==> IsDigits(y) && HasYear(m, y)
    ensures forall y :: y in yc ==> yc[y] == YearCount(m, y)
    ensures SumValues(yc) == SumValues(Restrict(m, HasDigitYear))
  {
    yc := map[];
    ghost var seen: map<string, nat> := map[];
    SumValuesEmpty(yc);
    SumValuesEmpty(Restrict(seen, HasDigitYear));
    var rest := m.Keys;
    while rest != {}
      invariant rest <= m.Keys
      invariant seen == map d | d in m && d !in rest :: m[d]
      invariant YearTotals(yc, seen)
      decreases |rest|
    {
      var d :| d in rest;
      var count := m[d];
      YearKeysStep(yc, seen, d, count);
      YearValuesStep(yc, seen, d, count);
      YearSumStep(yc, seen, d, count);
      yc := AddYear(yc, d, count);
      seen := seen[d := count];
      rest := rest - {d};
    }
    assert seen == m;
  }

  // ---------------------------------------------------------------------------
  // topic_years (lines 180-185)

  /** One `(year, count, count - prev_count)` triple. */
  datatype Entry = Entry(year: string, count: nat, delta: int)

  /** The counts of `entries` added up. */
  function CountsSum(entries: seq<Entry>): nat
  {
    if |entries| == 0 then 0 else CountsSum(entries[..|entries| - 1]) + entries[|entries| - 1].count
  }

  /** What the velocity list of a sub-topic whose trend row is `m` holds: every
      digit year that occurs, once and in ascending order; its total count; its
      change from the year before (a missing year counting zero); and the
      counts adding up to all dated entries of the row. */
  ghost predicate IsVelocity(m: map<string, nat>, entries: seq<Entry>)
  {
    && (forall i, j :: 0 <= i < j < |entries| ==> Less(entries[i].year, entries[j].year))
    && (forall y :: (exists i :: 0 <= i < |entries| && entries[i].year == y) <==> IsDigits(y) && HasYear(m, y))
    && (forall i :: 0 <= i < |entries| ==>
          IsDigits(entries[i].year)
          && entries[i].count == YearCount(m, entries[i].year)
          && entries[i].delta == entries[i].count - Counted(m, PrevYear(entries[i].year)))
    && CountsSum(entries) == SumValues(Restrict(m, HasDigitYear))
  }

  /** `years_counts.get(y, 0)`. */
  function Get(yc: map<string, nat>, y: string): nat
  {
    if y in yc then yc[y] else 0
  }

  /** The entries the loop of lines 180-184 appends, read off `years_counts`. */
  predicate EntriesOf(yc: map<string, nat>, years: seq<string>, entries: seq<Entry>)
    requires forall j :: 0 <= j < |years| ==> years[j] in yc && IsDigits(years[j])
  {
    |entries| == |years| &&
    forall j :: 0 <= j < |years| ==>
      entries[j] == Entry(years[j], yc[years[j]], yc[years[j]] - Get(yc, PrevYear(years[j])))
  }

  /** `years_counts.get(prev_year, 0)` agrees with the specification. */
  lemma GetCounted(yc: map<string, nat>, m: map<string, nat>, y: string)
    requires YearKeys(yc, m) && YearValues(yc, m)
    ensures Get(yc, y) == Counted(m, y)
  {
    if IsDigits(y) && y !in yc {
      NoYearNoCount(m, y);
    }
  }

  /** The years of the entries are the digit years that occur. */
  lemma EntriesYears(m: map<string, nat>, yc: map<string, nat>, years: seq<string>, entries: seq<Entry>)
    requires YearKeys(yc, m)
    requires forall y :: y in years <==> y in yc
    requires forall j :: 0 <= j < |years| ==> years[j] in yc && IsDigits(years[j])
    requires EntriesOf(yc, years, entries)
    ensures forall y :: (exists i :: 0 <= i < |entries| && entries[i].year == y) <==> IsDigits(y) && HasYear(m, y)
  {
    forall y ensures (exists i :: 0 <= i < |entries| && entries[i].year == y) <==> IsDigits(y) && HasYear(m, y) {
      if y in yc {
        assert y in years;
        var k :| 0 <= k < |years| && years[k] == y;
        assert entries[k].year == y;
      }
      if exists i :: 0 <= i < |entries| && entries[i].year == y {
        var i :| 0 <= i < |entries| && entries[i].year == y;
        assert years[i] == y;
      }
    }
  }

  /** Each entry holds its year's total and the change from the year before. */
  lemma EntriesCounts(m: map<string, nat>, yc: map<string, nat>, years: seq<string>, entries: seq<Entry>)
    requires YearKeys(yc, m) && YearValues(yc, m)
    requires forall j :: 0 <= j < |years| ==> years[j] in yc && IsDigits(years[j])
    requires EntriesOf(yc, years, entries)
    ensures forall i :: 0 <= i < |entries| ==>
          IsDigits(entries[i].year)
          && entries[i].count == YearCount(m, entries[i].year)
          && entries[i].delta == entries[i].count - Counted(m, PrevYear(entries[i].year))
  {
    forall i | 0 <= i < |entries|
      ensures IsDigits(entries[i].year)
          && entries[i].count == YearCount(m, entries[i].year)
          && entries[i].delta == entries[i].count - Counted(m, PrevYear(entries[i].year))
    {
      assert entries[i] == Entry(years[i], yc[years[i]], yc[years[i]] - Get(yc, PrevYear(years[i])));
      GetCounted(yc, m, PrevYear(years[i]));
    }
  }

  /** The counts of the entries add up to all dated entries of the row. */
  lemma EntriesSum(m: map<string, nat>, yc: map<string, nat>, years: seq<string>, entries: seq<Entry>)
    requires YearSum(yc, m)
    requires StrictlySorted(years) && forall y :: y in years <==> y in yc
    requires CountsSum(entries) == SumAlong(yc, years)
    ensures CountsSum(entries) == SumValues(Restrict(m, HasDigitYear))
  {
    forall a, b | 0 <= a < b < |years| ensures years[a] != years[b] {
      LessIrreflexive(years[a]);
    }
    SumAlongAll(yc, years);
  }

  /** Entries read off the sorted years of correct per-year totals form the
      velocity list. */
  lemma EntriesAreVelocity(m: map<string, nat>, yc: map<string, nat>, years: seq<string>, entries: seq<Entry>)
    requires YearTotals(yc, m)
    requires StrictlySorted(years) && forall y :: y in years <==> y in yc
    requires forall j :: 0 <= j < |years| ==> years[j] in yc && IsDigits(years[j])
    requires EntriesOf(yc, years, entries)
    requires CountsSum(entries) == SumAlong(yc, years)
    ensures IsVelocity(m, entries)
  {
    EntriesYears(m, yc, years, entries);
    EntriesCounts(m, yc, years, entries);
    EntriesSum(m, yc, years, entries);
  }

  /** Lines 180-184: one triple per year, in the given order. */
  method YearEntries(yc: map<string, nat>, years: seq<string>) returns (entries: seq<Entry>)
    requires forall j :: 0 <= j < |years| ==> years[j] in yc && IsDigits(years[j])
    ensures EntriesOf(yc, years, entries)
    ensures CountsSum(entries) == SumAlong(yc, years)
  {
    entries := [];
    var i := 0;
    while i < |years|
      invariant 0 <= i <= |years|
      invariant EntriesOf(yc, years[..i], entries)
      invariant CountsSum(entries) == SumAlong(yc, years[..i])
    {
      var year := years[i];
      var count := yc[year];
      var prevYear := PrevYear(year);
      var prevCount: int := if prevYear in yc then yc[prevYear] else 0;
      ghost var before := entries;
      entries := entries + [Entry(year, count, count - prevCount)];
      assert entries[..|entries| - 1] == before;
      assert CountsSum(entries) == CountsSum(before) + count;
      assert years[..i + 1][..i] == years[..i];
      assert SumAlong(yc, years[..i + 1]) == SumAlong(yc, years[..i]) + count;
      i := i + 1;
    }
    assert years[..i] == years;
  }

  /** Lines 170-185 for one sub-topic. */
  method TopicVelocity(m: map<string, nat>) returns (entries: seq<Entry>)
    ensures IsVelocity(m, entries)
  {
    var yc := CountYears(m);
    var years := SortStrings(yc.Keys);
    forall j | 0 <= j < |years| ensures years[j] in yc && IsDigits(years[j]) {
      assert years[j] in years;
    }
    entries := YearEntries(yc, years);
    EntriesAreVelocity(m, yc, years, entries);
  }

  /** Lines 168-185: the velocity list of every sub-topic of the trend table. */
  method ComputeVelocity(trends: Table) returns (velocity: map<string, seq<Entry>>)
    ensures velocity.Keys == trends.Keys
    ensures forall t :: t in trends ==> IsVelocity(trends[t], velocity[t])
  {
    velocity := map[];
    var rest := trends.Keys;
    while rest != {}
      invariant rest <= trends.Keys
      invariant velocity.Keys == trends.Keys - rest
      invariant forall t :: t in velocity ==> IsVelocity(trends[t], velocity[t])
      decreases |rest|
    {
      var topic :| topic in rest;
      var topicYears := TopicVelocity(trends[topic]);
      velocity := velocity[topic := topicYears];
      rest := rest - {topic};
    }
  }
}
