/**
 * Clinical derivation: the fever-free streak of a patient and the status the
 * ward shows for a patient on a given day.
 */
module Clinical {
  import opened Patients

  /** Readings strictly below this count as fever-free. */
  const FeverThreshold: real := 37.5

  /** Fever-free days needed for discharge. */
  const DischargeStreak: nat := 3

  function Min(a: real, b: real): real {
    if a <= b then a else b
  }

  /** The set of days that carry at least one reading. */
  function RecordedDates(rs: seq<TempRecord>): set<Date> {
    set r | r in rs :: r.date
  }

  /**
   * The lowest reading of each recorded day, folding the records in order as
   * the application fills its dictionary.
   */
  function DailyMin(rs: seq<TempRecord>): map<Date, real> {
    if rs == [] then map[]
    else
      var m := DailyMin(rs[..|rs| - 1]);
      var r := rs[|rs| - 1];
      m[r.date := if r.date in m then Min(m[r.date], r.temp) else r.temp]
  }

  /**
   * The dictionary has exactly the recorded days as keys, and the value of each
   * day is one of its readings and no higher than any of them.
   */
  lemma {:induction false} DailyMinIsMinimum(rs: seq<TempRecord>)
    ensures DailyMin(rs).Keys == RecordedDates(rs)
    ensures forall r :: r in rs ==> r.date in DailyMin(rs) && DailyMin(rs)[r.date] <= r.temp
    ensures forall d :: d in DailyMin(rs) ==> TempRecord(d, DailyMin(rs)[d]) in rs
  {
    if rs != [] {
      var rest := rs[..|rs| - 1];
      var r := rs[|rs| - 1];
      assert rs == rest + [r];
      DailyMinIsMinimum(rest);
    }
  }

  lemma DailyMinAppend(rs: seq<TempRecord>, r: TempRecord)
    ensures var m := DailyMin(rs);
      DailyMin(rs + [r]) == m[r.date := if r.date in m then Min(m[r.date], r.temp) else r.temp]
  {
    assert (rs + [r])[..|rs|] == rs;
  }

  /** A recorded day from which on, counting that day, every recorded day is fever-free. */
  predicate FeverFreeFrom(m: map<Date, real>, d: Date) {
    d in m && forall e :: e in m && e >= d ==> m[e] < FeverThreshold
  }

  /** The recorded days that belong to the current fever-free run. */
  function FeverFreeDates(m: map<Date, real>): set<Date> {
    set d | d in m.Keys && FeverFreeFrom(m, d)
  }

  /**
   * The fever-free streak: how many of the most recent recorded days, newest
   * first and by their lowest reading, lie below the threshold before the first
   * day that does not.
   */
  function Streak(rs: seq<TempRecord>): nat {
    |FeverFreeDates(DailyMin(rs))|
  }

  /** The position of a recorded day counted from the newest one (the newest has rank 1). */
  function Rank(m: map<Date, real>, d: Date): nat {
    |set e | e in m.Keys && e >= d|
  }

  predicate StrictlyDescending(ds: seq<Date>) {
    forall j, k :: 0 <= j < k < |ds| ==> ds[j] > ds[k]
  }

  lemma SubsetCardinality(a: set<Date>, b: set<Date>)
    requires a <= b
    ensures |a| <= |b|
  {
    assert b == a + (b - a);
  }

  lemma {:induction false} HasMaximum(s: set<Date>)
    requires s != {}
    ensures exists m :: m in s && forall e :: e in s ==> e <= m
  {
    var x :| x in s;
    if s != {x} {
      HasMaximum(s - {x});
      var m :| m in s - {x} && forall e :: e in s - {x} ==> e <= m;
      var top := if x > m then x else m;
      forall e | e in s ensures e <= top {
        if e != x { assert e in s - {x}; }
      }
    } else {
      forall e | e in s ensures e <= x { }
    }
  }

  /** The days that have a reading, each once, newest first. */
  method SortDatesDescending(keys: set<Date>) returns (ds: seq<Date>)
    ensures StrictlyDescending(ds)
    ensures forall d :: d in ds <==> d in keys
  {
    ds := [];
    var rest := keys;
    while rest != {}
      invariant StrictlyDescending(ds)
      invariant forall d :: d in keys <==> d in ds || d in rest
      invariant forall j, e :: 0 <= j < |ds| && e in rest ==> ds[j] > e
      decreases rest
    {
      HasMaximum(rest);
      var top :| top in rest && forall e :: e in rest ==> e <= top;
      ds := ds + [top];
      rest := rest - {top};
    }
  }

  lemma {:induction false} DistinctPrefixCardinality(ds: seq<Date>, n: nat)
    requires StrictlyDescending(ds) && n <= |ds|
    ensures |set j | 0 <= j < n :: ds[j]| == n
  {
    if n > 0 {
      DistinctPrefixCardinality(ds, n - 1);
      var before := set j | 0 <= j < n - 1 :: ds[j];
      assert (set j | 0 <= j < n :: ds[j]) == before + {ds[n - 1]};
      assert ds[n - 1] !in before;
    }
  }

  /**
   * When the first `n` days of the newest-first list are fever-free and the next
   * one (if any) is not, the current run has exactly `n` days.
   */
  lemma CountedPrefixIsStreak(m: map<Date, real>, ds: seq<Date>, n: nat)
    requires StrictlyDescending(ds)
    requires forall d :: d in ds <==> d in m
    requires n <= |ds|
    requires forall j :: 0 <= j < n ==> m[ds[j]] < FeverThreshold
    requires n < |ds| ==> m[ds[n]] >= FeverThreshold
    ensures |FeverFreeDates(m)| == n
  {
    var prefix := set j | 0 <= j < n :: ds[j];
    forall d | d in prefix ensures FeverFreeFrom(m, d) {
      var j :| 0 <= j < n && ds[j] == d;
      forall e | e in m && e >= d ensures m[e] < FeverThreshold {
        var i :| 0 <= i < |ds| && ds[i] == e;
        assert i <= j;
      }
    }
    forall d | d in FeverFreeDates(m) ensures d in prefix {
      var i :| 0 <= i < |ds| && ds[i] == d;
    }
    assert FeverFreeDates(m) == prefix;
    DistinctPrefixCardinality(ds, n);
  }

  /** The forEach of feverFreeDays that fills the dictionary of per-day minima. */
  method CollectDailyMinima(records: seq<TempRecord>) returns (daily: map<Date, real>)
    ensures daily == DailyMin(records)
  {
    daily := map[];
    for i := 0 to |records|
      invariant daily == DailyMin(records[..i])
    {
      var r := records[i];
      assert records[..i + 1] == records[..i] + [r];
      DailyMinAppend(records[..i], r);
      daily := daily[r.date := if r.date in daily then Min(daily[r.date], r.temp) else r.temp];
    }
    assert records[..|records|] == records;
  }

  /** The walk of feverFreeDays over the days, newest first, stopping at the first feverish one. */
  method CountFeverFreeRun(daily: map<Date, real>) returns (streak: nat)
    ensures streak == |FeverFreeDates(daily)|
  {
    var dates := SortDatesDescending(daily.Keys);
    streak := 0;
    while streak < |dates|
      invariant streak <= |dates|
      invariant forall j :: 0 <= j < streak ==> daily[dates[j]] < FeverThreshold
    {
      if daily[dates[streak]] < FeverThreshold {
        streak := streak + 1;
      } else {
        break;
      }
    }
    CountedPrefixIsStreak(daily, dates, streak);
  }

  /** feverFreeDays(p): fills the per-day minimum dictionary, sorts the days and counts. */
  method FeverFreeDays(p: Patient) returns (streak: nat)
    ensures streak == Streak(p.records)
  {
    if |p.records| == 0 {
      return 0;
    }
    var daily := CollectDailyMinima(p.records);
    streak := CountFeverFreeRun(daily);
  }

  // Properties of the streak.

  /** Without readings the streak is 0; it never exceeds the number of recorded days. */
  lemma StreakBounds(rs: seq<TempRecord>)
    ensures rs == [] ==> Streak(rs) == 0
    ensures Streak(rs) <= |RecordedDates(rs)|
  {
    var m := DailyMin(rs);
    DailyMinIsMinimum(rs);
    SubsetCardinality(FeverFreeDates(m), m.Keys);
  }

  /** The current run is closed upwards: every recorded day after a day in it is in it too. */
  lemma RunIsUpwardClosed(m: map<Date, real>, d: Date, e: Date)
    requires d in FeverFreeDates(m) && e in m && e >= d
    ensures e in FeverFreeDates(m)
  {
  }

  /**
   * The days ranked 1 to Streak(rs) all have a lowest reading below the
   * threshold, and the day ranked Streak(rs) + 1, if there is one, does not.
   */
  lemma {:induction false} StreakByRank(rs: seq<TempRecord>, d: Date)
    requires d in DailyMin(rs)
    ensures Rank(DailyMin(rs), d) <= Streak(rs) ==> DailyMin(rs)[d] < FeverThreshold
    ensures Rank(DailyMin(rs), d) == Streak(rs) + 1 ==> DailyMin(rs)[d] >= FeverThreshold
  {
    var m := DailyMin(rs);
    if Rank(m, d) <= Streak(rs) {
      RankWithinRun(m, d);
    }
    if Rank(m, d) == Streak(rs) + 1 && m[d] < FeverThreshold {
      var run := FeverFreeDates(m);
      var above := set e | e in m.Keys && e >= d;
      if d in run {
        assert above <= run;
        SubsetCardinality(above, run);
      } else {
        var e :| e in m && e >= d && m[e] >= FeverThreshold;
        var aboveE := set x | x in m.Keys && x >= e;
        assert aboveE <= above - {d};
        SubsetCardinality(aboveE, above - {d});
        RankWithinRun(m, e);
      }
    }
  }

  /** A day whose rank is at most the size of the run belongs to the run. */
  lemma RankWithinRun(m: map<Date, real>, d: Date)
    requires d in m && Rank(m, d) <= |FeverFreeDates(m)|
    ensures d in FeverFreeDates(m) && m[d] < FeverThreshold
  {
    var run := FeverFreeDates(m);
    var above := set e | e in m.Keys && e >= d;
    if d !in run {
      assert run <= above - {d} by {
        forall x | x in run ensures x in above - {d} {
        }
      }
      SubsetCardinality(run, above - {d});
    }
  }

  /** Several readings on one day count through their lowest one only. */
  lemma SameDayCollapsesToMinimum(rs: seq<TempRecord>, d: Date, t: real)
    requires d in DailyMin(rs)
    ensures var m := DailyMin(rs + [TempRecord(d, t)]);
      m[d] == Min(DailyMin(rs)[d], t) && m.Keys == DailyMin(rs).Keys
  {
    var rs' := rs + [TempRecord(d, t)];
    assert rs'[..|rs'| - 1] == rs;
  }

  /** The example of three days 38.0, 37.0, 36.5 (oldest first) has a streak of 2. */
  lemma StreakExampleThreeDays()
    ensures Streak([TempRecord(1, 38.0), TempRecord(2, 37.0), TempRecord(3, 36.5)]) == 2
  {
    var r1, r2, r3 := TempRecord(1, 38.0), TempRecord(2, 37.0), TempRecord(3, 36.5);
    DailyMinAppend([], r1);
    assert [] + [r1] == [r1];
    DailyMinAppend([r1], r2);
    assert [r1] + [r2] == [r1, r2];
    DailyMinAppend([r1, r2], r3);
    assert [r1, r2] + [r3] == [r1, r2, r3];
    var m := map[1 := 38.0, 2 := 37.0, 3 := 36.5];
    assert DailyMin([r1, r2, r3]) == m;
    CountedPrefixIsStreak(m, [3, 2, 1], 2);
  }

  /** A single reading of exactly 37.5 gives a streak of 0: the threshold is exclusive. */
  lemma StreakExampleAtThreshold(today: Date)
    ensures Streak([TempRecord(today, 37.5)]) == 0
  {
    var rs := [TempRecord(today, 37.5)];
    assert rs[..0] == [];
    assert !FeverFreeFrom(DailyMin(rs), today);
    assert FeverFreeDates(DailyMin(rs)) == {};
  }

  // Status.

  datatype Status = Discharged | Deceased | NeedsTemp | NeedsVisit | EligibleDischarge | StableToday

  /** computeStatus(p) on the day `today`: the first matching rule wins. */
  function ComputeStatus(p: Patient, today: Date): (s: Status)
    ensures s == Discharged <==> p.discharged
    ensures s == Deceased <==> p.deceased && !p.discharged
    ensures (s == Discharged || s == Deceased) <==> !Active(p)
    ensures Active(p) ==> (s == NeedsTemp <==> !HasTempOn(p.records, today))
    ensures s == NeedsVisit <==> Active(p) && HasTempOn(p.records, today) && !HasVisitOn(p.visits, today)
    ensures (s == EligibleDischarge || s == StableToday) <==>
      Active(p) && HasTempOn(p.records, today) && HasVisitOn(p.visits, today)
    ensures s == EligibleDischarge ==> Streak(p.records) >= DischargeStreak
    ensures s == StableToday ==> Streak(p.records) < DischargeStreak
  {
    if p.discharged then Discharged
    else if p.deceased then Deceased
    else if !HasTempOn(p.records, today) then NeedsTemp
    else if !HasVisitOn(p.visits, today) then NeedsVisit
    else if Streak(p.records) >= DischargeStreak then EligibleDischarge
    else StableToday
  }

  /** A patient flagged both discharged and deceased shows as Discharged. */
  lemma DischargedOutranksDeceased(p: Patient, today: Date)
    requires p.discharged && p.deceased
    ensures ComputeStatus(p, today) == Discharged
  {
  }

  /** An active patient with no reading today needs a temperature, whatever else holds. */
  lemma MissingReadingOutranksVisit(p: Patient, today: Date)
    requires Active(p) && !HasTempOn(p.records, today)
    ensures ComputeStatus(p, today) == NeedsTemp
  {
  }
}
