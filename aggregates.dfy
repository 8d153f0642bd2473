/**
 * The dashboard numbers: the nurse's and the doctor's to-do counts and the
 * ward KPIs, all computed from the patient collection and the current day.
 */
module Aggregates {
  import opened Patients
  import opened Clinical

  /** The conditions the dashboard filters patients by. */
  datatype Criterion =
    | AwaitingReading          // active, no temperature recorded today
    | AwaitingVisit            // active, no doctor visit today
    | InCare                   // active
    | WasDischarged
    | Died
    | ReadingTaken             // a temperature recorded today, whatever the flags
    | VisitDone                // a doctor visit today, whatever the flags
    | ShowsStatus(s: Status)   // the status the patient table shows today

  predicate Meets(p: Patient, c: Criterion, today: Date) {
    match c
    case AwaitingReading => !HasTempOn(p.records, today) && Active(p)
    case AwaitingVisit => !HasVisitOn(p.visits, today) && Active(p)
    case InCare => Active(p)
    case WasDischarged => p.discharged
    case Died => p.deceased
    case ReadingTaken => HasTempOn(p.records, today)
    case VisitDone => HasVisitOn(p.visits, today)
    case ShowsStatus(s) => ComputeStatus(p, today) == s
  }

  /** How many patients of the collection meet the criterion (the length of a filtered list). */
  function Count(ps: seq<Patient>, c: Criterion, today: Date): (n: nat)
    ensures n <= |ps|
  {
    if ps == [] then 0 else (if Meets(ps[0], c, today) then 1 else 0) + Count(ps[1..], c, today)
  }

  /** The count is 0 exactly when no patient meets the criterion. */
  lemma {:induction false} CountNone(ps: seq<Patient>, c: Criterion, today: Date)
    ensures Count(ps, c, today) == 0 <==> forall i :: 0 <= i < |ps| ==> !Meets(ps[i], c, today)
  {
    if ps != [] {
      assert forall i :: 1 <= i < |ps| ==> ps[i] == ps[1..][i - 1];
      CountNone(ps[1..], c, today);
    }
  }

  /** The count is |ps| exactly when every patient meets the criterion. */
  lemma {:induction false} CountAll(ps: seq<Patient>, c: Criterion, today: Date)
    ensures Count(ps, c, today) == |ps| <==> forall i :: 0 <= i < |ps| ==> Meets(ps[i], c, today)
  {
    if ps != [] {
      assert forall i :: 1 <= i < |ps| ==> ps[i] == ps[1..][i - 1];
      CountAll(ps[1..], c, today);
    }
  }

  /** A weaker criterion counts at least as many patients. */
  lemma {:induction false} CountMonotone(ps: seq<Patient>, c: Criterion, d: Criterion, today: Date)
    requires forall i :: 0 <= i < |ps| ==> Meets(ps[i], c, today) ==> Meets(ps[i], d, today)
    ensures Count(ps, c, today) <= Count(ps, d, today)
  {
    if ps != [] {
      assert forall i :: 1 <= i < |ps| ==> ps[i] == ps[1..][i - 1];
      CountMonotone(ps[1..], c, d, today);
    }
  }

  /** Criteria that agree on every patient give the same count. */
  lemma {:induction false} CountAgree(ps: seq<Patient>, c: Criterion, d: Criterion, today: Date)
    requires forall i :: 0 <= i < |ps| ==> (Meets(ps[i], c, today) <==> Meets(ps[i], d, today))
    ensures Count(ps, c, today) == Count(ps, d, today)
  {
    if ps != [] {
      assert forall i :: 1 <= i < |ps| ==> ps[i] == ps[1..][i - 1];
      CountAgree(ps[1..], c, d, today);
    }
  }

  /** Counting over a concatenation adds up the counts of the parts. */
  lemma {:induction false} CountAppend(ps: seq<Patient>, qs: seq<Patient>, c: Criterion, today: Date)
    ensures Count(ps + qs, c, today) == Count(ps, c, today) + Count(qs, c, today)
  {
    if ps != [] {
      assert (ps + qs)[1..] == ps[1..] + qs;
      CountAppend(ps[1..], qs, c, today);
    } else {
      assert ps + qs == qs;
    }
  }

  /** The positions of the patients that meet the criterion. */
  function Matching(ps: seq<Patient>, c: Criterion, today: Date): set<int> {
    set i | 0 <= i < |ps| && Meets(ps[i], c, today)
  }

  /** The count is the number of positions whose patient meets the criterion. */
  lemma CountIsCardinality(ps: seq<Patient>, c: Criterion, today: Date)
    ensures Count(ps, c, today) == |set i | 0 <= i < |ps| && Meets(ps[i], c, today)|
  {
    CountIsMatching(ps, c, today);
  }

  /** The same, with the positions collected by `Matching`; the induction runs over the last patient. */
  lemma {:induction false} CountIsMatching(ps: seq<Patient>, c: Criterion, today: Date)
    ensures Count(ps, c, today) == |Matching(ps, c, today)|
    decreases |ps|
  {
    if ps == [] {
      assert Matching(ps, c, today) == {};
    } else {
      var init, last := ps[..|ps| - 1], ps[|ps| - 1];
      assert ps == init + [last];
      CountAppend(init, [last], c, today);
      assert [last][1..] == [];
      CountIsMatching(init, c, today);
      MatchingSnoc(init, last, c, today);
    }
  }

  /** Appending a patient adds its position exactly when it meets the criterion. */
  lemma MatchingSnoc(ps: seq<Patient>, last: Patient, c: Criterion, today: Date)
    ensures |ps| !in Matching(ps, c, today)
    ensures Matching(ps + [last], c, today) ==
      Matching(ps, c, today) + if Meets(last, c, today) then {|ps|} else {}
  {
    var qs := ps + [last];
    forall i | 0 <= i < |ps| ensures qs[i] == ps[i] { }
    assert qs[|ps|] == last;
  }

  function ActiveCount(ps: seq<Patient>, today: Date): nat {
    Count(ps, InCare, today)
  }

  /** The nurse's to-do: active patients without a reading today, never more than the active ones. */
  function NeedTempCount(ps: seq<Patient>, today: Date): (n: nat)
    ensures n == |set i | 0 <= i < |ps| && Active(ps[i]) && !HasTempOn(ps[i].records, today)|
    ensures n <= ActiveCount(ps, today)
  {
    CountMonotone(ps, AwaitingReading, InCare, today);
    CountIsCardinality(ps, AwaitingReading, today);
    assert (set i | 0 <= i < |ps| && Meets(ps[i], AwaitingReading, today)) ==
      (set i | 0 <= i < |ps| && Active(ps[i]) && !HasTempOn(ps[i].records, today));
    Count(ps, AwaitingReading, today)
  }

  /** The doctor's to-do: active patients without a visit today, never more than the active ones. */
  function NeedVisitCount(ps: seq<Patient>, today: Date): (n: nat)
    ensures n == |set i | 0 <= i < |ps| && Active(ps[i]) && !HasVisitOn(ps[i].visits, today)|
    ensures n <= ActiveCount(ps, today)
  {
    CountMonotone(ps, AwaitingVisit, InCare, today);
    CountIsCardinality(ps, AwaitingVisit, today);
    assert (set i | 0 <= i < |ps| && Meets(ps[i], AwaitingVisit, today)) ==
      (set i | 0 <= i < |ps| && Active(ps[i]) && !HasVisitOn(ps[i].visits, today));
    Count(ps, AwaitingVisit, today)
  }

  /** The nurse's to-do count is the number of rows the table shows as needing a temperature. */
  lemma NurseTodoMatchesTable(ps: seq<Patient>, today: Date)
    ensures NeedTempCount(ps, today) == Count(ps, ShowsStatus(NeedsTemp), today)
  {
    CountAgree(ps, AwaitingReading, ShowsStatus(NeedsTemp), today);
  }

  /**
   * The doctor's to-do count covers every row shown as needing a visit, and
   * also the active patients without a visit whose row shows "needs
   * temperature" instead, because that status outranks the visit.
   */
  lemma DoctorTodoCoversTable(ps: seq<Patient>, today: Date)
    ensures Count(ps, ShowsStatus(NeedsVisit), today) <= NeedVisitCount(ps, today)
  {
    CountMonotone(ps, ShowsStatus(NeedsVisit), AwaitingVisit, today);
  }

  /** The doctor's to-do can exceed the rows shown as needing a visit: one new patient, nothing recorded. */
  lemma DoctorTodoCanExceedTable(today: Date)
    ensures var ps := [Patient("P001", 1, "A", 30, [], [], false, false)];
      NeedVisitCount(ps, today) == 1 && Count(ps, ShowsStatus(NeedsVisit), today) == 0
  {
    var ps := [Patient("P001", 1, "A", 30, [], [], false, false)];
    assert !HasTempOn(ps[0].records, today) && !HasVisitOn(ps[0].visits, today);
    assert ComputeStatus(ps[0], today) == NeedsTemp;
  }

  /**
   * The share k of total as a rounded percentage, on exact numbers, and 0 for an
   * empty ward: the whole number nearest to 100k/total, halves rounded up.
   */
  function Percent(k: nat, total: nat): (r: nat)
    ensures total == 0 ==> r == 0
    ensures total > 0 ==> 2 * total * r <= 200 * k + total < 2 * total * (r + 1)
    ensures k <= total ==> r <= 100
  {
    if total == 0 then 0
    else
      var r := (200 * k + total) / (2 * total);
      RoundedQuotientBounds(200 * k + total, 2 * total, r);
      assert k <= total ==> r <= 100 by {
        if k <= total {
          assert 2 * total * r <= 200 * total + total < 2 * total * 101;
          QuotientAtMost(r, 2 * total, 101);
        }
      }
      r
  }

  lemma RoundedQuotientBounds(n: nat, d: nat, q: nat)
    requires d > 0 && q == n / d
    ensures d * q <= n < d * (q + 1)
  {
  }

  lemma QuotientAtMost(q: nat, d: nat, bound: nat)
    requires d > 0 && d * q < d * bound
    ensures q < bound
  {
  }

  /** In exact arithmetic the percentage lies within one half of 100k/total. */
  lemma PercentIsNearest(k: nat, total: nat)
    requires total > 0
    ensures var x := 100.0 * (k as real) / (total as real);
      (Percent(k, total) as real) - 0.5 <= x < (Percent(k, total) as real) + 0.5
  {
    var r := Percent(k, total);
    RealBounds(k, total, r);
    DivideBounds((r as real) - 0.5, 100.0 * (k as real), (r as real) + 0.5, total as real);
  }

  lemma RealBounds(k: nat, total: nat, r: nat)
    requires total > 0 && 2 * total * r <= 200 * k + total < 2 * total * (r + 1)
    ensures ((r as real) - 0.5) * (total as real) <= 100.0 * (k as real) < ((r as real) + 0.5) * (total as real)
  {
    assert (2 * total * r) as real == 2.0 * (total as real) * (r as real);
    assert (2 * total * (r + 1)) as real == 2.0 * (total as real) * (r as real + 1.0);
  }

  lemma DivideBounds(lo: real, a: real, hi: real, t: real)
    requires t > 0.0 && lo * t <= a < hi * t
    ensures lo <= a / t < hi
  {
    var x := a / t;
    assert x * t == a;
  }

  /** The five KPI cards. */
  datatype Kpis = Kpis(
    total: nat,
    tempCompliancePct: nat,
    visitCompliancePct: nat,
    dischargedCount: nat,
    mortalityPct: nat)

  /**
   * renderKPIs: the ward size, the share of patients with a reading and with a
   * visit today, the number discharged and the share deceased. Compliance counts
   * every patient with an entry today, whatever the flags.
   */
  function ComputeKpis(ps: seq<Patient>, today: Date): (k: Kpis)
    ensures k.total == |ps|
    ensures k.tempCompliancePct == Percent(|set i | 0 <= i < |ps| && HasTempOn(ps[i].records, today)|, |ps|)
    ensures k.visitCompliancePct == Percent(|set i | 0 <= i < |ps| && HasVisitOn(ps[i].visits, today)|, |ps|)
    ensures k.dischargedCount == |set i | 0 <= i < |ps| && ps[i].discharged|
    ensures k.mortalityPct == Percent(|set i | 0 <= i < |ps| && ps[i].deceased|, |ps|)
    ensures k.dischargedCount <= k.total
    ensures k.tempCompliancePct <= 100 && k.visitCompliancePct <= 100 && k.mortalityPct <= 100
    ensures ps == [] ==> k == Kpis(0, 0, 0, 0, 0)
    ensures ps != [] && (forall i :: 0 <= i < |ps| ==> HasTempOn(ps[i].records, today)) ==> k.tempCompliancePct == 100
  {
    var total := |ps|;
    var temps := Count(ps, ReadingTaken, today);
    var visits := Count(ps, VisitDone, today);
    var discharged := Count(ps, WasDischarged, today);
    var deceased := Count(ps, Died, today);
    KpiCounts(ps, today);
    assert (ps != [] && forall i :: 0 <= i < |ps| ==> HasTempOn(ps[i].records, today)) ==> Percent(temps, total) == 100 by {
      CountAll(ps, ReadingTaken, today);
      if total > 0 && temps == total { FullPercent(total); }
    }
    Kpis(total, Percent(temps, total), Percent(visits, total), discharged, Percent(deceased, total))
  }

  /** The four counts the KPI cards show, as numbers of positions in the collection. */
  lemma KpiCounts(ps: seq<Patient>, today: Date)
    ensures Count(ps, ReadingTaken, today) == |set i | 0 <= i < |ps| && HasTempOn(ps[i].records, today)|
    ensures Count(ps, VisitDone, today) == |set i | 0 <= i < |ps| && HasVisitOn(ps[i].visits, today)|
    ensures Count(ps, WasDischarged, today) == |set i | 0 <= i < |ps| && ps[i].discharged|
    ensures Count(ps, Died, today) == |set i | 0 <= i < |ps| && ps[i].deceased|
  {
    CountIsCardinality(ps, ReadingTaken, today);
    assert (set i | 0 <= i < |ps| && Meets(ps[i], ReadingTaken, today)) ==
      (set i | 0 <= i < |ps| && HasTempOn(ps[i].records, today));
    CountIsCardinality(ps, VisitDone, today);
    assert (set i | 0 <= i < |ps| && Meets(ps[i], VisitDone, today)) ==
      (set i | 0 <= i < |ps| && HasVisitOn(ps[i].visits, today));
    CountIsCardinality(ps, WasDischarged, today);
    assert (set i | 0 <= i < |ps| && Meets(ps[i], WasDischarged, today)) ==
      (set i | 0 <= i < |ps| && ps[i].discharged);
    CountIsCardinality(ps, Died, today);
    assert (set i | 0 <= i < |ps| && Meets(ps[i], Died, today)) ==
      (set i | 0 <= i < |ps| && ps[i].deceased);
  }

  /** Everyone counted gives 100. */
  lemma FullPercent(total: nat)
    requires total > 0
    ensures Percent(total, total) == 100
  {
    var r := Percent(total, total);
    QuotientAtMost(r, 2 * total, 101);
    QuotientAtMost(99, 2 * total, r + 1);
  }

  /** Rounding shows 100% while one patient in 200 is still missing. */
  lemma AlmostFullShowsHundred()
    ensures Percent(199, 200) == 100
  {
  }
}
